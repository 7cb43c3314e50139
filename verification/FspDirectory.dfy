/**
 * Directory listings: the block format a server lays entries out in, loading
 * the blocks with transactions, and reading the entries back one by one.
 */
module FspDirectory {
  import opened Basics
  import opened Bytes
  import opened FspPacket
  import opened FspNetwork
  import opened FspSession
  import opened FspFile

  const RDTYPE_END: byte := 0x00
  const RDTYPE_SKIP: byte := 0x2A
  const NAME_MAX: nat := 255

  // ----- the format -----

  datatype Entry = Entry(lastmod: uint32, size: uint32, kind: byte, name: seq<byte>)

  predicate ValidEntry(e: Entry) {
    e.kind != RDTYPE_END && e.kind != RDTYPE_SKIP && 0 !in e.name
  }

  function Be32(x: uint32): (s: seq<byte>)
    ensures |s| == 4
  {
    [x / 0x100_0000, x / 0x1_0000 % 0x100, x / 0x100 % 0x100, x % 0x100]
  }

  function Zeros(n: nat): (s: seq<byte>)
    ensures |s| == n
  {
    seq(n, _ => 0)
  }

  function Pad4(n: nat): (p: nat)
    ensures p < 4
  {
    (4 - n % 4) % 4
  }

  // An 8-byte header, the type, the terminated name, and padding to a multiple of 4.
  function Record(e: Entry): (r: seq<byte>)
    ensures |r| == 10 + |e.name| + Pad4(10 + |e.name|)
    ensures r[8] == e.kind && r[9..9 + |e.name|] == e.name && r[9 + |e.name|] == 0
    ensures r[..4] == Be32(e.lastmod) && r[4..8] == Be32(e.size)
  {
    Be32(e.lastmod) + Be32(e.size) + [e.kind] + e.name + [0] + Zeros(Pad4(10 + |e.name|))
  }

  /** What follows one another in a listing; the filler bytes are whatever the server left there. */
  datatype Item = Rec(entry: Entry) | NextBlock(filler: seq<byte>) | Finish(filler: seq<byte>)

  function Room(block: nat, pos: nat): (room: nat)
    requires block > 0
    ensures 0 < room <= block
  {
    block - pos % block
  }

  lemma {:induction false} RoomEndsBlock(block: nat, pos: nat)
    requires block > 0
    ensures (pos + Room(block, pos)) % block == 0
  {
    assert pos == pos / block * block + pos % block;
    MultipleHasNoRest(pos / block + 1, block);
    assert pos + (block - pos % block) == (pos / block + 1) * block;
  }

  lemma {:induction false} MultipleHasNoRest(k: nat, n: nat)
    requires n > 0
    ensures (k * n) % n == 0
  {
    WholeItems(k, n);
  }

  /**
   * The items are laid out by the rules from `pos` on: no record crosses a block
   * boundary, a skip record or a stump too short for a header leads to the next
   * block, and an end record or the end of the data closes the listing.
   */
  predicate LaidOut(items: seq<Item>, block: nat, pos: nat)
    requires block > 0
  {
    items == [] ||
    match items[0] {
      case Rec(e) =>
        ValidEntry(e) && |Record(e)| <= Room(block, pos) && LaidOut(items[1..], block, pos + |Record(e)|)
      case NextBlock(filler) =>
        && |filler| == Room(block, pos)
        && (|filler| < 9 || filler[8] == RDTYPE_SKIP)
        && LaidOut(items[1..], block, pos + |filler|)
      case Finish(filler) =>
        |items| == 1 && 9 <= Room(block, pos) && 9 <= |filler| && filler[8] == RDTYPE_END
    }
  }

  function ItemBytes(item: Item): seq<byte> {
    match item
    case Rec(e) => Record(e)
    case NextBlock(filler) => filler
    case Finish(filler) => filler
  }

  function Layout(items: seq<Item>): seq<byte> {
    if items == [] then [] else ItemBytes(items[0]) + Layout(items[1..])
  }

  function Entries(items: seq<Item>): seq<Entry> {
    if items == [] then []
    else (if items[0].Rec? then [items[0].entry] else []) + Entries(items[1..])
  }

  /** An entry as the reader shows it: names are cut at 255 bytes. */
  datatype Shown = Shown(lastmod: uint32, size: uint32, kind: byte, name: seq<byte>, namlen: nat, reclen: uint16)

  function Show(e: Entry): Shown {
    var n := Min(|e.name|, NAME_MAX);
    Shown(e.lastmod, e.size, e.kind, e.name[..n], n, |Record(e)| % 0x1_0000)
  }

  function ShowAll(es: seq<Entry>): seq<Shown> {
    if es == [] then [] else [Show(es[0])] + ShowAll(es[1..])
  }

  /** Each entry is shown with all its fields, but for a name of more than 255 bytes. */
  lemma {:induction false} ShownOneByOne(es: seq<Entry>, i: nat)
    requires i < |es|
    ensures |ShowAll(es)| == |es|
    ensures var e, shown := es[i], ShowAll(es)[i];
            && shown.lastmod == e.lastmod && shown.size == e.size && shown.kind == e.kind
            && shown.namlen == |shown.name| && shown.name == (if |e.name| <= 255 then e.name else e.name[..255])
            && shown.reclen == (10 + |e.name| + 3) / 4 * 4 % 0x1_0000
  {
    if |es| > 1 {
      ShownOneByOne(es[1..], if i > 0 then i - 1 else 0);
    }
  }

  // ----- what the reader looks for -----

  // The next NUL at or after `from`, or the end of the data.
  function NulAt(data: seq<byte>, from: nat): (at: nat)
    requires from <= |data|
    ensures from <= at <= |data| && (at < |data| ==> data[at] == 0)
    ensures forall i | from <= i < at :: data[i] != 0
    decreases |data| - from
  {
    if from == |data| || data[from] == 0 then from else NulAt(data, from + 1)
  }

  datatype Found = Nothing | Unterminated(at: nat) | Overrun | One(entry: Shown, next: nat)

  function SkipTo(block: nat, pos: nat): (next: nat)
    requires block > 0
    ensures next == pos + Room(block, pos)
  {
    assert pos == pos / block * block + pos % block;
    (pos / block + 1) * block
  }

  // The record whose header is at `pos`.
  function RecordFound(data: seq<byte>, pos: nat): Found
    requires pos + 8 < |data|
  {
    var nul := NulAt(data, pos + 9);
    if nul == |data| then Unterminated(pos + 9)
    else
      var n, pad := nul - (pos + 9), Pad4(nul + 1);
      One(ShownAt(data, pos, n, 10 + n + pad), nul + 1 + pad)
  }

  function ShownAt(data: seq<byte>, pos: nat, n: nat, len: nat): Shown
    requires pos + 9 + n < |data|
  {
    var cut := Min(n, NAME_MAX);
    Shown(Long(data, pos), Long(data, pos + 4), data[pos + 8], data[pos + 9..pos + 9 + cut], cut, len % 0x1_0000)
  }

  /** The next entry at or after `pos`; Overrun when a header would be read past the end of the data. */
  function Scan(data: seq<byte>, block: nat, pos: nat): Found
    requires block > 0
    decreases |data| - pos
  {
    if pos >= |data| then Nothing
    else if Room(block, pos) < 9 then Scan(data, block, SkipTo(block, pos))
    else if pos + 8 >= |data| then Overrun
    else if data[pos + 8] == RDTYPE_END then Nothing
    else if data[pos + 8] == RDTYPE_SKIP then Scan(data, block, SkipTo(block, pos))
    else RecordFound(data, pos)
  }

  lemma {:induction false} NulFound(data: seq<byte>, from: nat, at: nat)
    requires from <= at < |data| && data[at] == 0 && 0 !in data[from..at]
    ensures NulAt(data, from) == at
    decreases at - from
  {
    if from < at {
      assert data[from] == data[from..at][0];
      assert data[from + 1..at] == data[from..at][1..];
      NulFound(data, from + 1, at);
    }
  }

  // The items behind the first record.
  function AfterRecord(items: seq<Item>): seq<Item> {
    if items == [] then [] else if items[0].Rec? then items[1..] else AfterRecord(items[1..])
  }

  // The reader's block size: the length of the first block it got.
  predicate BlockSeen(seen: nat, block: nat, size: nat) {
    seen == Min(block, size)
  }

  lemma RoomSeen(seen: nat, block: nat, size: nat, pos: nat)
    requires block > 0 && BlockSeen(seen, block, size) && pos < size
    ensures seen == block || (pos < seen == size < block && Room(seen, pos) == size - pos && Room(block, pos) == block - pos)
  {
    if seen != block {
      SmallMod(pos, seen);
      SmallMod(pos, block);
    }
  }

  lemma SmallMod(x: nat, n: nat)
    requires x < n
    ensures x % n == x
  {
    var q := x / n;
    assert x == q * n + x % n;
    if q >= 1 {
      MulGrows(1, q, n);
    }
  }

  lemma {:induction false} ScanRecord(e: Entry, data: seq<byte>, block: nat, pos: nat)
    requires ValidEntry(e) && block > 0 && pos % 4 == 0
    requires pos + |Record(e)| <= |data| && data[pos..pos + |Record(e)|] == Record(e)
    requires Room(block, pos) >= |Record(e)|
    ensures Scan(data, block, pos) == One(Show(e), pos + |Record(e)|)
  {
    hide Record, FspPacket.Long, Pad4, Room, ShownAt, Scan, Show, RecordFound;
    RecordAt(e, data, pos);
    FoundAt(data, pos, |e.name|);
    ShownIsShow(e, data, pos);
    ScanAtRecord(data, block, pos);
  }

  lemma FoundAt(data: seq<byte>, pos: nat, n: nat)
    requires pos % 4 == 0 && pos + 9 + n < |data| && data[pos + 9 + n] == 0 && 0 !in data[pos + 9..pos + 9 + n]
    ensures var len := 10 + n + Pad4(10 + n);
            RecordFound(data, pos) == One(ShownAt(data, pos, n, len), pos + len)
  {
    hide ShownAt, Pad4, NulAt;
    NulFound(data, pos + 9, pos + 9 + n);
    PadShifts(pos, 10 + n);
  }

  lemma ScanAtRecord(data: seq<byte>, block: nat, pos: nat)
    requires block > 0 && pos + 8 < |data| && Room(block, pos) >= 9
    requires data[pos + 8] != RDTYPE_END && data[pos + 8] != RDTYPE_SKIP
    ensures Scan(data, block, pos) == RecordFound(data, pos)
  {
  }

  lemma ShownIsShow(e: Entry, data: seq<byte>, pos: nat)
    requires pos + |Record(e)| <= |data| && data[pos..pos + |Record(e)|] == Record(e)
    ensures ShownAt(data, pos, |e.name|, |Record(e)|) == Show(e)
  {
    hide Record, FspPacket.Long;
    RecordAt(e, data, pos);
    var n := |e.name|;
    var cut := Min(n, NAME_MAX);
    assert data[pos + 9..pos + 9 + cut] == data[pos + 9..pos + 9 + n][..cut];
  }

  lemma SubSlice(data: seq<byte>, pos: nat, len: nat, i: nat, j: nat)
    requires pos + len <= |data| && i <= j <= len
    ensures data[pos..pos + len][i..j] == data[pos + i..pos + j]
  {
    var a, b := data[pos..pos + len][i..j], data[pos + i..pos + j];
    assert |a| == |b|;
    assert forall k | 0 <= k < |a| :: a[k] == data[pos..pos + len][i + k] == data[pos + i + k] == b[k];
  }

  // Where the parts of a record lie.
  lemma {:induction false} RecordAt(e: Entry, data: seq<byte>, pos: nat)
    requires pos + |Record(e)| <= |data| && data[pos..pos + |Record(e)|] == Record(e)
    ensures var n := |e.name|;
            && Long(data, pos) == e.lastmod && Long(data, pos + 4) == e.size && data[pos + 8] == e.kind
            && data[pos + 9..pos + 9 + n] == e.name && data[pos + 9 + n] == 0
  {
    hide Be32, Pad4, Zeros, FspPacket.Long;
    var r, n := Record(e), |e.name|;
    assert data[pos + 8] == data[pos..pos + |r|][8] && data[pos + 9 + n] == data[pos..pos + |r|][9 + n];
    SubSlice(data, pos, |r|, 9, 9 + n);
    SubSlice(data, pos, |r|, 0, 4);
    SubSlice(data, pos, |r|, 4, 8);
    LongAt(data, pos, e.lastmod);
    LongAt(data, pos + 4, e.size);
  }

  lemma LongAt(data: seq<byte>, i: nat, x: uint32)
    requires i + 4 <= |data| && data[i..i + 4] == Be32(x)
    ensures Long(data, i) == x
  {
    var s := data[i..i + 4];
    assert data[i] == s[0] && data[i + 1] == s[1] && data[i + 2] == s[2] && data[i + 3] == s[3];
    LongSplit(x);
  }

  lemma SumAligns(a: nat, b: nat)
    requires a % 4 == 0 && b % 4 == 0
    ensures (a + b) % 4 == 0
  {
  }

  lemma PadAligns(n: nat)
    ensures (n + Pad4(n)) % 4 == 0
  {
  }

  lemma PadIsLeast(n: nat, k: nat)
    requires k <= Pad4(n) && (n + k) % 4 == 0
    ensures k == Pad4(n)
  {
  }

  lemma PadShifts(pos: nat, n: nat)
    requires pos % 4 == 0
    ensures Pad4(pos + n) == Pad4(n)
  {
  }

  function FirstRecord(items: seq<Item>): Option<Entry> {
    if items == [] then None else if items[0].Rec? then Some(items[0].entry) else FirstRecord(items[1..])
  }

  lemma {:induction false} EntriesByFirst(items: seq<Item>)
    ensures match FirstRecord(items)
            case None => Entries(items) == []
            case Some(e) => Entries(items) == [e] + Entries(AfterRecord(items)) && |AfterRecord(items)| < |items|
  {
    if items != [] && !items[0].Rec? {
      EntriesByFirst(items[1..]);
    }
  }

  // The reader stands where `rest` is still to come.
  predicate StandsBefore(rest: seq<Item>, data: seq<byte>, block: nat, pos: nat)
    requires block > 0
  {
    pos % 4 == 0 && pos <= |data| && LaidOut(rest, block, pos) && data[pos..] == Layout(rest)
  }

  // What the reader finds from `pos` on is the first entry among `items`.
  predicate FindsFirst(items: seq<Item>, data: seq<byte>, block: nat, seen: nat, pos: nat)
    requires block > 0 && seen > 0
  {
    var found := Scan(data, seen, pos);
    match FirstRecord(items)
    case None => found == Nothing
    case Some(e) =>
      && found.One? && found.entry == Show(e) && found.next > pos
      && StandsBefore(AfterRecord(items), data, block, found.next)
  }

  /** From any position where items are laid out, the reader finds the first entry among them, or nothing if there is none. */
  lemma {:induction false} ScanFindsFirst(items: seq<Item>, data: seq<byte>, block: nat, seen: nat, pos: nat)
    requires block > 0 && block % 4 == 0 && |data| > 0 && BlockSeen(seen, block, |data|)
    requires StandsBefore(items, data, block, pos)
    ensures FindsFirst(items, data, block, seen, pos)
    decreases |items|
  {
    if items == [] {
      EmptyLayout(data, pos);
      ScanStops(data, seen, pos);
    } else {
      match items[0] {
        case Rec(_) => FindsRecord(items, data, block, seen, pos);
        case NextBlock(filler) =>
          SkipsBlock(items, data, block, seen, pos);
          ScanFindsFirst(items[1..], data, block, seen, pos + |filler|);
        case Finish(_) => FindsEnd(items, data, block, seen, pos);
      }
    }
  }

  lemma FindsRecord(items: seq<Item>, data: seq<byte>, block: nat, seen: nat, pos: nat)
    requires block > 0 && |data| > 0 && BlockSeen(seen, block, |data|)
    requires StandsBefore(items, data, block, pos) && items != [] && items[0].Rec?
    ensures FindsFirst(items, data, block, seen, pos)
  {
    hide Record, Room, Show, Scan, Layout, Pad4, Be32;
    LayoutSplits(items, data, pos);
    RoomSeen(seen, block, |data|, pos);
    PadAligns(10 + |items[0].entry.name|);
    SumAligns(pos, |Record(items[0].entry)|);
    ScanRecord(items[0].entry, data, seen, pos);
  }

  lemma {:induction false} SkipsBlock(items: seq<Item>, data: seq<byte>, block: nat, seen: nat, pos: nat)
    requires block > 0 && block % 4 == 0 && |data| > 0 && BlockSeen(seen, block, |data|)
    requires StandsBefore(items, data, block, pos) && items != [] && items[0].NextBlock?
    ensures var next := pos + |items[0].filler|;
            StandsBefore(items[1..], data, block, next) && Scan(data, seen, pos) == Scan(data, seen, next)
  {
    hide Room, Scan, Layout;
    LayoutSplits(items, data, pos);
    RoomIsAligned(block, pos);
    ScanSkips(data, block, seen, pos);
  }

  lemma FindsEnd(items: seq<Item>, data: seq<byte>, block: nat, seen: nat, pos: nat)
    requires block > 0 && |data| > 0 && BlockSeen(seen, block, |data|)
    requires StandsBefore(items, data, block, pos) && items != [] && items[0].Finish?
    ensures FindsFirst(items, data, block, seen, pos)
  {
    hide Room, Scan, Layout;
    LayoutSplits(items, data, pos);
    RoomSeen(seen, block, |data|, pos);
    ScanStops(data, seen, pos);
    assert items[1..] == [] && FirstRecord(items[1..]) == None;
  }

  lemma EmptyLayout(data: seq<byte>, pos: nat)
    requires pos <= |data| && data[pos..] == Layout([])
    ensures pos == |data|
  {
    assert |data[pos..]| == 0;
  }

  lemma {:induction false} ScanSkips(data: seq<byte>, block: nat, seen: nat, pos: nat)
    requires block > 0 && BlockSeen(seen, block, |data|) && pos + Room(block, pos) <= |data| && 0 < |data|
    requires Room(block, pos) < 9 || data[pos + 8] == RDTYPE_SKIP
    ensures Scan(data, seen, pos) == Scan(data, seen, pos + Room(block, pos))
  {
    hide NulAt, Pad4, FspPacket.Long;
    RoomSeen(seen, block, |data|, pos);
  }

  lemma ScanStops(data: seq<byte>, seen: nat, pos: nat)
    requires seen > 0
    requires pos >= |data| || (pos + 8 < |data| && Room(seen, pos) >= 9 && data[pos + 8] == RDTYPE_END)
    ensures Scan(data, seen, pos) == Nothing
  {
  }

  lemma LayoutSplits(items: seq<Item>, data: seq<byte>, pos: nat)
    requires items != [] && pos <= |data| && data[pos..] == Layout(items)
    ensures var bytes := ItemBytes(items[0]);
            var end := pos + |bytes|;
            end <= |data| && data[pos..end] == bytes && data[end..] == Layout(items[1..])
            && (|bytes| > 8 ==> data[pos + 8] == bytes[8])
  {
    var bytes := ItemBytes(items[0]);
    var end := pos + |bytes|;
    assert |data[pos..]| == |bytes| + |Layout(items[1..])|;
    assert data[pos..end] == data[pos..][..|bytes|] == bytes;
    assert data[end..] == data[pos..][|bytes|..] == Layout(items[1..]);
    assert |bytes| > 8 ==> data[pos + 8] == data[pos..end][8];
  }

  lemma {:induction false} RoomIsAligned(block: nat, pos: nat)
    requires block > 0 && block % 4 == 0
    ensures (pos + Room(block, pos)) % 4 == 0
  {
    RoomEndsBlock(block, pos);
    var k, q := (pos + Room(block, pos)) / block, block / 4;
    assert pos + Room(block, pos) == k * block == 4 * (k * q);
  }

  // ----- the directory handle -----

  datatype Read = GotEntry(entry: Shown) | AtEnd | Failed(rc: int)

  const EINVAL := 22
  const ESPIPE := 29

  class Dir {
    const data: seq<byte>
    const blocksize: nat
    var dirpos: int

    constructor (data: seq<byte>, blocksize: nat)
      ensures this.data == data && this.blocksize == blocksize && dirpos == 0
    {
      this.data, this.blocksize, dirpos := data, blocksize, 0;
    }

    /**
     * fsp_readdir_native. `hasResult` says that the caller's result pointer is
     * not null on entry; the call clears it at the end of the directory.
     */
    method ReaddirNative(hasResult: bool) returns (read: Read)
      requires blocksize > 0
      // The data does not stop inside a record header.
      requires hasResult && dirpos >= 0 && dirpos % 4 == 0 ==> !Scan(data, blocksize, dirpos).Overrun?
      modifies this
      ensures !hasResult ==> read == Failed(-EINVAL) && dirpos == old(dirpos)
      ensures hasResult && (old(dirpos) < 0 || old(dirpos) % 4 != 0) ==> read == Failed(-ESPIPE) && dirpos == old(dirpos)
      ensures hasResult && old(dirpos) >= 0 && old(dirpos) % 4 == 0 ==>
                match Scan(data, blocksize, old(dirpos))
                case Nothing => read == AtEnd && dirpos >= |data|
                case Unterminated(at) => read == AtEnd && dirpos == at
                case One(entry, next) => read == GotEntry(entry) && dirpos == next
    {
      if !hasResult {
        return Failed(-EINVAL);
      }
      if dirpos < 0 || dirpos % 4 != 0 {
        return Failed(-ESPIPE);
      }
      while true
        invariant dirpos >= 0 && !Scan(data, blocksize, dirpos).Overrun?
        invariant Scan(data, blocksize, dirpos) == Scan(data, blocksize, old(dirpos))
        decreases |data| - dirpos
      {
        if dirpos >= |data| {
          return AtEnd;
        }
        var ftype;
        if blocksize - dirpos % blocksize < 9 {
          ftype := RDTYPE_SKIP;
        } else {
          ftype := data[dirpos + 8];
        }
        if ftype == RDTYPE_END {
          dirpos := |data|;
          return AtEnd;
        }
        if ftype == RDTYPE_SKIP {
          dirpos := SkipTo(blocksize, dirpos);
          continue;
        }
        read := TakeRecord();
        return;
      }
    }

    // Steps up to the next multiple of 4.
    method Align() returns (steps: nat)
      requires dirpos >= 0
      modifies this
      ensures steps == Pad4(old(dirpos)) && dirpos == old(dirpos) + steps
    {
      hide Pad4;
      PadAligns(dirpos);
      steps := 0;
      while dirpos % 4 != 0
        invariant 0 <= steps <= Pad4(old(dirpos)) && dirpos == old(dirpos) + steps
        decreases Pad4(old(dirpos)) - steps
      {
        dirpos := dirpos + 1;
        steps := steps + 1;
      }
      PadIsLeast(old(dirpos), steps);
    }

    // The record whose header is at `dirpos`.
    method TakeRecord() returns (read: Read)
      requires 0 <= dirpos && dirpos + 8 < |data|
      modifies this
      ensures match RecordFound(data, old(dirpos))
              case Unterminated(at) => read == AtEnd && dirpos == at
              case One(entry, next) => read == GotEntry(entry) && dirpos == next
    {
      hide Pad4, FspPacket.Long;
      var start: nat := dirpos;
      var lastmod, size, ftype := Long(data, dirpos), Long(data, dirpos + 4), data[dirpos + 8];
      dirpos := dirpos + 9;
      var namelen := 0;
      while dirpos + namelen < |data| && data[dirpos + namelen] != 0
        invariant 0 <= namelen && dirpos + namelen <= |data| && dirpos == start + 9
        invariant NulAt(data, start + 9) == NulAt(data, start + 9 + namelen)
      {
        namelen := namelen + 1;
      }
      if dirpos + namelen == |data| {
        return AtEnd;
      }
      var cut := if namelen > NAME_MAX then NAME_MAX else namelen;
      var name := data[dirpos..dirpos + cut];
      dirpos := dirpos + namelen + 1;
      var reclen := 10 + namelen;
      var padding := Align();
      reclen := reclen + padding;
      return GotEntry(Shown(lastmod, size, ftype, name, cut, reclen % 0x1_0000));
    }
  }

  /** NullHandle: the first block came empty, and the handle is used although none was allocated. */
  datatype Opened = Handle(dir: Dir) | OpenFailed | NullHandle

  // A reply accepted for a GET_DIR carries the block at the requested position.
  lemma BlockAnswered(s: Session, req: Packet, reply: Packet)
    requires s.Valid() && reply in s.net.w.inbox && Matches(s.sq, req, reply)
    requires req.cmd == CC_GET_DIR && reply.cmd != CC_ERR
    ensures reply.data == BlockAt(s.net.srv, req.pos)
  {
    var asked :| asked in s.net.w.sent && Answers(s.net.srv, asked, reply);
  }

  // One block of the listing, or nothing when the transaction failed.
  method FetchBlock(s: Session, out: Pkt, inp: Pkt, pos: nat) returns (block: Option<seq<byte>>)
    requires s.Valid() && s.lock.semaphore > 0
    requires out.Fits() && out.cmd == CC_GET_DIR && inp.buf.Length == SPACE && inp != out && inp.buf != out.buf
    requires pos <= |s.net.srv.listing|
    modifies s, s.lock, s.net, out`key, out`sq, out`pos, inp, inp.buf
    ensures s.Valid() && s.lock.semaphore > 0 && out.Fits()
    ensures block.Some? ==> block.value == BlockAt(s.net.srv, pos)
    ensures s.misses == old(s.misses) + if block.Some? then 0 else 1
    // What goes out asks for the block at this position of the directory that was named.
    ensures old(s.net.w.sent) <= s.net.w.sent
    ensures forall r | r in s.net.w.sent && r !in old(s.net.w.sent) ::
              r.cmd == CC_GET_DIR && r.pos == pos && r.data == out.buf[..out.len] && r.extra == out.buf[out.len..out.len + out.xlen]
  {
    hide FspNetwork.Extends, FspNetwork.Faithful, FspSession.Attempts, FspSession.Matches, FspSession.WellPaced;
    hide FspNetwork.BlockAt;
    hide FspSession.Concluded, FspSession.SendsOnly;
    out.pos := pos;
    ghost var before, req := s.net.trace, out.View();
    var rc := s.Transaction(out, inp);
    RequestSent(s.net.srv, before, s.net.trace, req.(key := out.key), s.sq);
    if rc != 0 {
      return None;
    }
    if inp.cmd == CC_ERR {
      return None;
    }
    BlockAnswered(s, out.View(), inp.View());
    return Some(inp.buf[..inp.len]);
  }

  /** fsp_opendir: loads the whole listing, block by block. */
  method OpenDir(s: Session, name: seq<byte>) returns (r: Opened)
    requires s.Valid() && s.lock.semaphore > 0
    modifies s, s.lock, s.net
    ensures s.Valid() && s.lock.semaphore > 0
    ensures r.Handle? ==>
              && fresh(r.dir) && r.dir.data == s.net.srv.listing != [] && r.dir.dirpos == 0
              && r.dir.blocksize == Min(s.net.srv.block, |s.net.srv.listing|)
    ensures AsksFor(old(s.net.w.sent), s.net.w.sent, CC_GET_DIR, name, s.password)
    ensures r.NullHandle? ==> s.net.srv.listing == []
    ensures !r.OpenFailed? <==> NameFits(name, s.password) && s.misses == old(s.misses)
  {
    hide FullName, Naming;
    AsksNothing(s.net.w.sent, CC_GET_DIR, name, s.password);
    var inp := new Pkt();
    var out := new Pkt();
    var rc := BuildFilename(s, out, name);
    if rc != 0 {
      return OpenFailed;
    }
    var pos, blocksize, data := 0, 0, [];
    out.cmd := CC_GET_DIR;
    out.xlen := 0;
    FullNameIsNaming(name, s.password);
    ghost var listing, block := s.net.srv.listing, s.net.srv.block;
    while true
      invariant s.Valid() && s.lock.semaphore > 0 && out.Fits() && out.cmd == CC_GET_DIR
      invariant 0 <= pos <= |listing| && data == listing[..pos] && s.misses == old(s.misses)
      invariant out.xlen == 0 && Naming(out.buf[..out.len], name, s.password)
      invariant AsksFor(old(s.net.w.sent), s.net.w.sent, CC_GET_DIR, name, s.password)
      invariant if pos == 0 then blocksize == 0 else blocksize == Min(block, |listing|)
      decreases |listing| - pos
    {
      var got := FetchBlock(s, out, inp, pos);
      if got.None? {
        return OpenFailed;
      }
      var len := |got.value|;
      if len == 0 {
        break;
      }
      if blocksize == 0 {
        blocksize := len;
      }
      assert listing[..pos + len] == listing[..pos] + listing[pos..pos + len];
      data := data + got.value;
      pos := pos + len;
      if len < blocksize {
        break;
      }
    }
    assert pos == |listing|;
    assert listing[..|listing|] == listing;
    if pos == 0 {
      return NullHandle;
    }
    var dir := new Dir(data, blocksize);
    return Handle(dir);
  }

  lemma {:induction false} ShowAllSplits(es: seq<Entry>, e: Entry, rest: seq<Entry>)
    requires es == [e] + rest
    ensures ShowAll(es) == [Show(e)] + ShowAll(rest)
  {
    assert es[1..] == rest;
  }

  // Reads from the start of a listing to its end.
  method ReadAll(dir: Dir, ghost items: seq<Item>, ghost block: nat) returns (entries: seq<Shown>)
    requires block > 0 && block % 4 == 0 && |dir.data| > 0 && dir.blocksize > 0 && BlockSeen(dir.blocksize, block, |dir.data|)
    requires dir.dirpos == 0 && StandsBefore(items, dir.data, block, 0)
    modifies dir
    ensures entries == ShowAll(Entries(items))
  {
    hide Layout, LaidOut, Entries;
    ghost var rest := items;
    entries := [];
    while true
      invariant dir.dirpos >= 0 && StandsBefore(rest, dir.data, block, dir.dirpos)
      invariant entries + ShowAll(Entries(rest)) == ShowAll(Entries(items))
      decreases |rest|
    {
      ScanFindsFirst(rest, dir.data, block, dir.blocksize, dir.dirpos);
      EntriesByFirst(rest);
      var read := dir.ReaddirNative(true);
      if !read.GotEntry? {
        assert entries + [] == entries;
        return;
      }
      ShowAllSplits(Entries(rest), FirstRecord(rest).value, Entries(AfterRecord(rest)));
      entries := entries + [read.entry];
      rest := AfterRecord(rest);
    }
  }

  /**
   * Opening a directory and reading it to its end yields exactly the entries the
   * server laid out, in their order. It fails only if the name does not fit, or if a
   * transaction gave up or was answered with an error.
   */
  method ListDirectory(s: Session, name: seq<byte>, ghost items: seq<Item>) returns (listed: bool, entries: seq<Shown>)
    requires s.Valid() && s.lock.semaphore > 0
    requires s.net.srv.block % 4 == 0 && LaidOut(items, s.net.srv.block, 0) && s.net.srv.listing == Layout(items) != []
    modifies s, s.lock, s.net
    ensures AsksFor(old(s.net.w.sent), s.net.w.sent, CC_GET_DIR, name, s.password)
    ensures listed ==> entries == ShowAll(Entries(items))
    ensures listed <==> NameFits(name, s.password) && s.misses == old(s.misses)
  {
    hide Layout, LaidOut, Entries, NameFits, AsksFor;
    var r := OpenDir(s, name);
    if !r.Handle? {
      return false, [];
    }
    assert r.dir.data[0..] == Layout(items);
    entries := ReadAll(r.dir, items, s.net.srv.block);
    listed := true;
  }
}
