/**
 * The FSP version 2 packet codec: a 12-byte big-endian header with a folded
 * checksum, a data block and an extra data block.
 */
module FspPacket {
  import opened Basics
  import opened Bytes

  const HSIZE: nat := 12
  const SPACE: nat := 1024
  const MAXPACKET: nat := HSIZE + SPACE

  const CC_INFO: byte := 0x11
  const CC_ERR: byte := 0x40
  const CC_GET_DIR: byte := 0x41
  const CC_GET_FILE: byte := 0x42
  const CC_UP_LOAD: byte := 0x43
  const CC_INSTALL: byte := 0x44
  const CC_GRAB_FILE: byte := 0x4B

  /** What a packet says: its header fields and the contents of its two data blocks. */
  datatype Packet = Packet(cmd: byte, key: uint16, sq: uint16, pos: uint32, data: seq<byte>, extra: seq<byte>)

  predicate Sendable(p: Packet) {
    |p.data| + |p.extra| <= SPACE
  }

  // The 255 * 255 fold: the second byte of the total is added into the first.
  function Fold(total: nat): byte {
    (total + total / 256) % 256
  }

  function Header(p: Packet, sum: byte): (h: seq<byte>)
    requires Sendable(p)
    ensures |h| == HSIZE
  {
    [p.cmd, sum,
     p.key / 0x100, p.key % 0x100,
     p.sq / 0x100, p.sq % 0x100,
     |p.data| / 0x100, |p.data| % 0x100,
     p.pos / 0x100_0000, p.pos / 0x1_0000 % 0x100, p.pos / 0x100 % 0x100, p.pos % 0x100]
  }

  function Image(p: Packet, sum: byte): (d: seq<byte>)
    requires Sendable(p)
    ensures |d| == HSIZE + |p.data| + |p.extra|
    ensures d[1] == sum
  {
    Header(p, sum) + p.data + p.extra
  }

  /** The datagram a client sends: its checksum covers the datagram's length too. */
  function ClientImage(p: Packet): seq<byte>
    requires Sendable(p)
  {
    var blank := Image(p, 0);
    Image(p, Fold(Sum(blank) + |blank|))
  }

  /** The datagram a server sends: its checksum covers the bytes only. */
  function ServerImage(p: Packet): seq<byte>
    requires Sendable(p)
  {
    Image(p, Fold(Sum(Image(p, 0))))
  }

  // The bytes of a datagram added up without its checksum byte.
  function BareSum(d: seq<byte>): nat
    requires |d| >= 2
  {
    SumAtLeast(d, 1);
    Sum(d) - d[1]
  }

  lemma ImageSum(p: Packet, sum: byte)
    requires Sendable(p)
    ensures Image(p, sum) == Image(p, 0)[1 := sum]
  {
  }

  lemma BareSumOfImage(p: Packet, sum: byte)
    requires Sendable(p)
    ensures BareSum(Image(p, sum)) == Sum(Image(p, 0))
  {
    ImageSum(p, sum);
    SumUpdate(Image(p, 0), 1, sum);
  }

  function Word(d: seq<byte>, i: nat): uint16
    requires i + 1 < |d|
  {
    d[i] as int * 0x100 + d[i + 1]
  }

  function Long(d: seq<byte>, i: nat): uint32
    requires i + 3 < |d|
  {
    d[i] as int * 0x100_0000 + d[i + 1] as int * 0x1_0000 + d[i + 2] as int * 0x100 + d[i + 3]
  }

  predicate SumMatches(d: seq<byte>)
    requires |d| >= HSIZE
  {
    d[1] == Fold(BareSum(d))
  }

  /** When fsp_pkt_read takes a datagram. */
  predicate Accepts(d: seq<byte>) {
    HSIZE <= |d| <= MAXPACKET && SumMatches(d) && Word(d, 6) <= |d|
  }

  /** The length field leaves room for the header; fsp_pkt_read does not check this much. */
  predicate LengthFits(d: seq<byte>) {
    HSIZE <= |d| <= MAXPACKET && HSIZE + Word(d, 6) <= |d|
  }

  function Fields(d: seq<byte>): (p: Packet)
    requires LengthFits(d)
    ensures Sendable(p)
  {
    var len := Word(d, 6);
    Packet(d[0], Word(d, 2), Word(d, 4), Long(d, 8), d[HSIZE..HSIZE + len], d[HSIZE + len..])
  }

  /** How a server reads a datagram from a client. */
  function ServerDecode(d: seq<byte>): Option<Packet> {
    if LengthFits(d) && d[1] == Fold(BareSum(d) + |d|) then Some(Fields(d)) else None
  }

  lemma {:induction false} HeaderFields(p: Packet, sum: byte)
    requires Sendable(p)
    ensures var h := Header(p, sum);
            h[0] == p.cmd && Word(h, 2) == p.key && Word(h, 4) == p.sq && Word(h, 6) == |p.data| && Long(h, 8) == p.pos
  {
    LongSplit(p.pos);
  }

  lemma LongSplit(x: uint32)
    ensures x / 0x100_0000 * 0x100_0000 + x / 0x1_0000 % 0x100 * 0x1_0000 + x / 0x100 % 0x100 * 0x100 + x % 0x100 == x
  {
    assert x == x / 0x100 * 0x100 + x % 0x100;
    assert x / 0x100 == x / 0x1_0000 * 0x100 + x / 0x100 % 0x100;
    assert x / 0x1_0000 == x / 0x100_0000 * 0x100 + x / 0x1_0000 % 0x100;
  }

  lemma FieldsOfImage(p: Packet, sum: byte)
    requires Sendable(p)
    ensures LengthFits(Image(p, sum)) && Fields(Image(p, sum)) == p
  {
    var d, h := Image(p, sum), Header(p, sum);
    assert forall i | 0 <= i < HSIZE :: d[i] == h[i];
    HeaderFields(p, sum);
    assert Word(d, 2) == Word(h, 2) && Word(d, 4) == Word(h, 4) && Word(d, 6) == Word(h, 6);
    assert Long(d, 8) == Long(h, 8);
    assert d[HSIZE..HSIZE + |p.data|] == p.data;
    assert d[HSIZE + |p.data|..] == p.extra;
  }

  /** A server reads back every packet a client writes. */
  lemma ClientRoundTrip(p: Packet)
    requires Sendable(p)
    ensures ServerDecode(ClientImage(p)) == Some(p)
  {
    hide Header, LengthFits, Fields, BareSum, Fold;
    var blank := Image(p, 0);
    var sum := Fold(Sum(blank) + |blank|);
    FieldsOfImage(p, sum);
    BareSumOfImage(p, sum);
  }

  /** The client's reader takes every packet a server writes and recovers it. */
  lemma ServerRoundTrip(p: Packet)
    requires Sendable(p)
    ensures Accepts(ServerImage(p)) && LengthFits(ServerImage(p)) && Fields(ServerImage(p)) == p
  {
    hide Header, Fields, BareSum, Fold;
    var sum := Fold(Sum(Image(p, 0)));
    FieldsOfImage(p, sum);
    BareSumOfImage(p, sum);
  }

  /**
   * One changed byte outside the checksum goes unnoticed exactly when it moved by
   * 255 and carried into, or borrowed from, the second byte of the total.
   */
  lemma ByteChangeDetected(d: seq<byte>, i: nat, b: byte)
    requires HSIZE <= |d| && SumMatches(d)
    requires i < |d| && i != 1 && b != d[i]
    ensures SumMatches(d[i := b]) <==>
            || (b - d[i] == 255 && BareSum(d) % 256 != 0)
            || (d[i] - b == 255 && BareSum(d) % 256 != 255)
  {
    SumUpdate(d, i, b);
    FoldMoved(BareSum(d), BareSum(d[i := b]));
  }

  lemma {:induction false} FoldMoved(s: nat, t: nat)
    requires s != t && -255 <= t - s <= 255
    ensures Fold(s) == Fold(t) <==> (t - s == 255 && s % 256 != 0) || (s - t == 255 && s % 256 != 255)
  {
    var a, b, c, d := s / 256, s % 256, t / 256, t % 256;
    FoldSplit(s);
    FoldSplit(t);
    assert s == 256 * a + b && t == 256 * c + d;
    assert c == a || c == a + 1 || c == a - 1;
    SameResidue(a + b, c + d);
  }

  lemma SameResidue(x: nat, y: nat)
    requires -512 < x - y < 512
    ensures x % 256 == y % 256 <==> x - y in {-256, 0, 256}
  {
    assert x == 256 * (x / 256) + x % 256 && y == 256 * (y / 256) + y % 256;
  }

  lemma FoldSplit(x: nat)
    ensures Fold(x) == (x / 256 + x % 256) % 256
  {
    var q, r := x / 256, x % 256;
    assert x + q == 256 * q + (q + r);
    WholePages(q, q + r);
  }

  lemma WholePages(k: nat, x: nat)
    ensures (256 * k + x) % 256 == x % 256
  {
    var y := 256 * k + x;
    assert y - 256 * (k + x / 256) == x % 256;
  }

  lemma ChecksumChangeDetected(d: seq<byte>, b: byte)
    requires HSIZE <= |d| && SumMatches(d) && b != d[1]
    ensures !SumMatches(d[1 := b])
  {
    SumUpdate(d, 1, b);
  }

  method AddUp(space: array<byte>, n: nat) returns (total: nat)
    requires n <= space.Length
    ensures total == Sum(space[..n])
  {
    total := 0;
    for i := 0 to n
      invariant total == Sum(space[..i])
    {
      SumPrefix(space[..], i);
      assert space[..][..i + 1] == space[..i + 1] && space[..][..i] == space[..i];
      total := total + space[i];
    }
  }

  method FoldedSum(space: array<byte>, n: nat) returns (mysum: byte)
    requires HSIZE <= n <= space.Length
    ensures mysum == Fold(BareSum(space[..n]))
  {
    var total: int := AddUp(space, n);
    SumAtLeast(space[..n], 1);
    total := total - space[1];
    mysum := (total + total / 256) % 256;
  }

  /** A packet whose fields and two data blocks live in one buffer. */
  class Pkt {
    var cmd: byte
    var sum: byte
    var key: uint16
    var sq: uint16
    var len: uint16
    var pos: uint32
    var xlen: uint16
    const buf: array<byte>

    constructor ()
      ensures fresh(buf) && buf.Length == SPACE
      ensures cmd == 0 && len == 0 && xlen == 0 && pos == 0
    {
      buf := new byte[SPACE];
      cmd, sum, key, sq, len, pos, xlen := 0, 0, 0, 0, 0, 0, 0;
    }

    predicate Fits()
      reads this
    {
      buf.Length == SPACE && xlen + len <= SPACE
    }

    /** What the packet says; one with too much data says nothing beyond its header. */
    function View(): (p: Packet)
      reads this, buf
      ensures Sendable(p) && p.cmd == cmd && p.key == key && p.sq == sq && p.pos == pos
    {
      if Fits() then Packet(cmd, key, sq, pos, buf[..len], buf[len..len + xlen])
      else Packet(cmd, key, sq, pos, [], [])
    }

    // The header with its checksum byte still zero.
    method PackHeader(space: array<byte>)
      requires Fits() && space.Length >= MAXPACKET && space != buf
      modifies space
      ensures space[..HSIZE] == Header(View(), 0)
    {
      var n: nat := len;
      space[0], space[1] := cmd, 0;
      space[2], space[3] := key / 0x100, key % 0x100;
      space[4], space[5] := sq / 0x100, sq % 0x100;
      space[6], space[7] := n / 0x100, n % 0x100;
      space[8], space[9], space[10], space[11] :=
        pos / 0x100_0000, pos / 0x1_0000 % 0x100, pos / 0x100 % 0x100, pos % 0x100;
    }

    // Copies part of the packet's data into a datagram.
    method CopyInto(space: array<byte>, at: nat, from: nat, n: nat)
      requires from + n <= buf.Length && at + n <= space.Length && space != buf
      modifies space
      ensures space[..at] == old(space[..at])
      ensures space[at..at + n] == buf[from..from + n]
    {
      forall i | 0 <= i < n {
        space[at + i] := buf[from + i];
      }
    }

    // Copies part of a datagram to the front of the packet's data.
    method CopyFrom(space: array<byte>, from: nat, n: nat)
      requires n <= buf.Length && from + n <= space.Length && space != buf
      modifies buf
      ensures buf[..n] == space[from..from + n]
      ensures buf[n..] == old(buf[n..])
    {
      forall i | 0 <= i < n {
        buf[i] := space[from + i];
      }
    }

    // Writes a piece into the packet's data.
    method Put(at: nat, piece: seq<byte>)
      requires at + |piece| <= buf.Length
      modifies buf
      ensures buf[..at] == old(buf[..at]) && buf[at..at + |piece|] == piece
    {
      forall i | 0 <= i < |piece| {
        buf[at + i] := piece[i];
      }
    }

    // Copies part of the packet's data out.
    method Copy(dest: array<byte>, at: nat, from: nat, n: nat)
      requires from + n <= buf.Length && at + n <= dest.Length && dest != buf
      modifies dest
      ensures forall i | 0 <= i < dest.Length ::
                dest[i] == if at <= i < at + n then buf[from + i - at] else old(dest[i])
    {
      forall i | 0 <= i < n {
        dest[at + i] := buf[from + i];
      }
    }

    // Moves the first n bytes of the data to its end; the two places may overlap.
    method MoveUp(up: nat, n: nat)
      requires up + n == buf.Length
      modifies buf
      ensures buf[up..] == old(buf[..n])
    {
      forall i | 0 <= i < n {
        buf[up + i] := buf[i];
      }
    }

    // The whole packet with its checksum byte still zero.
    method LayOut(space: array<byte>) returns (used: nat)
      requires Fits() && space.Length >= MAXPACKET && space != buf
      modifies space
      ensures used == |Image(View(), 0)| && space[..used] == Image(View(), 0)
    {
      hide Header;
      PackHeader(space);
      used := HSIZE;
      CopyInto(space, used, 0, len);
      used := used + len;
      assert space[..HSIZE] == space[..used][..HSIZE];
      CopyInto(space, used, len, xlen);
      assert space[..HSIZE] == space[..used][..HSIZE];
      used := used + xlen;
      assert space[..used] == space[..HSIZE] + space[HSIZE..HSIZE + len as int] + space[HSIZE + len as int..used];
    }

    /** fsp_pkt_write: lays the packet out in `space` and says how many bytes it took. */
    method Write(space: array<byte>) returns (used: nat)
      requires buf.Length == SPACE
      requires space.Length >= MAXPACKET && space != buf
      modifies space
      ensures Fits() ==> used == |ClientImage(View())| && space[..used] == ClientImage(View())
      ensures used <= MAXPACKET
      ensures !Fits() ==> used == 0 && space[..] == old(space[..])
    {
      hide Header;
      if xlen + len > SPACE {
        return 0;
      }
      used := LayOut(space);
      ghost var p, blank := View(), Image(View(), 0);
      var checksum := AddUp(space, used);
      checksum := checksum + used;
      space[1] := (checksum + checksum / 256) % 256;
      ImageSum(p, Fold(checksum));
      assert space[..used] == blank[1 := Fold(checksum)];
    }

    method UnpackHeader(space: array<byte>, received: nat)
      requires HSIZE <= received <= space.Length && space != buf
      modifies this
      ensures var d := space[..received];
              && cmd == d[0] && key == Word(d, 2) && sq == Word(d, 4)
              && len == Word(d, 6) && pos == Long(d, 8)
    {
      cmd := space[0];
      key := space[2] as int * 0x100 + space[3];
      sq := space[4] as int * 0x100 + space[5];
      len := space[6] as int * 0x100 + space[7];
      pos := space[8] as int * 0x100_0000 + space[9] as int * 0x1_0000 + space[10] as int * 0x100 + space[11];
    }

    lemma Unpacked(d: seq<byte>)
      requires buf.Length == SPACE && LengthFits(d)
      requires cmd == d[0] && key == Word(d, 2) && sq == Word(d, 4) && len == Word(d, 6) && pos == Long(d, 8)
      requires xlen == |d| - len - HSIZE && buf[..|d| - HSIZE] == d[HSIZE..]
      ensures Fits() && View() == Fields(d)
    {
      assert buf[..len] == buf[..|d| - HSIZE][..len];
      assert buf[len..len + xlen] == buf[..|d| - HSIZE][len..];
    }

    /** fsp_pkt_read: unpacks the first `received` bytes of `space`. */
    method Read(space: array<byte>, received: nat) returns (rc: int)
      requires buf.Length == SPACE && space != buf
      requires received <= space.Length
      modifies this, buf
      ensures rc == 0 <==> Accepts(space[..received])
      ensures rc != 0 ==> rc == -1
      ensures rc == 0 ==>
                var d := space[..received];
                && cmd == d[0] && sum == d[1] && key == Word(d, 2) && sq == Word(d, 4)
                && len == Word(d, 6) && pos == Long(d, 8)
                && xlen == (received - len - HSIZE) % 0x1_0000
                && buf[..received - HSIZE] == d[HSIZE..]
                && buf[received - HSIZE..] == old(buf[received - HSIZE..])
                && (LengthFits(d) ==> Fits() && View() == Fields(d))
    {
      ghost var d := space[..received];
      if received < HSIZE {
        return -1;
      }
      if received > MAXPACKET {
        return -1;
      }
      var mysum := FoldedSum(space, received);
      if mysum != space[1] {
        return -1;
      }
      UnpackHeader(space, received);
      sum := mysum;
      if len > received {
        return -1;
      }
      xlen := (received - len - HSIZE) % 0x1_0000;
      CopyFrom(space, HSIZE, received - HSIZE);
      if LengthFits(d) {
        Unpacked(d);
      }
      return 0;
    }
  }

  /** The unpacked lengths add up to the datagram exactly when the length field leaves room for the header. */
  lemma LengthsAddUp(d: seq<byte>)
    requires Accepts(d)
    ensures LengthFits(d) <==> HSIZE + Word(d, 6) + (|d| - Word(d, 6) - HSIZE) % 0x1_0000 == |d|
  {
  }

  /** A datagram that is taken although its length field reaches past its end: a bare header that announces one byte. */
  lemma OverlongIsAccepted()
    ensures var d: seq<byte> := [0, 1, 0, 0, 0, 0, 0, 1, 0, 0, 0, 0];
            Accepts(d) && !LengthFits(d)
  {
    var d: seq<byte> := [0, 1, 0, 0, 0, 0, 0, 1, 0, 0, 0, 0];
    for k := 0 to |d|
      invariant Sum(d[..k]) == if k < 2 then 0 else if k < 8 then 1 else 2
    {
      SumPrefix(d, k);
    }
    assert d[..|d|] == d;
  }

  lemma SumOfPrefixes(d: seq<byte>, sums: seq<nat>)
    requires |sums| == |d| + 1 && sums[0] == 0
    requires forall k | 0 <= k < |d| :: sums[k + 1] == sums[k] + d[k]
    ensures Sum(d) == sums[|d|]
  {
    for k := 0 to |d|
      invariant Sum(d[..k]) == sums[k]
    {
      SumPrefix(d, k);
    }
    assert d[..|d|] == d;
  }

  lemma ExampleImage(sum: byte)
    ensures Image(Packet(0x41, 0x1234, 0x5678, 0x0102_0304, [0x61, 0], []), sum) ==
              [0x41, sum, 0x12, 0x34, 0x56, 0x78, 0, 2, 1, 2, 3, 4, 0x61, 0]
  {
    var p := Packet(0x41, 0x1234, 0x5678, 0x0102_0304, [0x61, 0], []);
    assert Header(p, sum) == [0x41, sum, 0x12, 0x34, 0x56, 0x78, 0, 2, 1, 2, 3, 4];
  }

  /** One request byte by byte: where the fields are, which of their bytes comes first, and what is summed up. */
  lemma ExampleRequest()
    ensures ClientImage(Packet(0x41, 0x1234, 0x5678, 0x0102_0304, [0x61, 0], [])) ==
              [0x41, 209, 0x12, 0x34, 0x56, 0x78, 0, 2, 1, 2, 3, 4, 0x61, 0]
  {
    hide Image;
    ExampleImage(0);
    ExampleImage(209);
    var blank: seq<byte> := [0x41, 0, 0x12, 0x34, 0x56, 0x78, 0, 2, 1, 2, 3, 4, 0x61, 0];
    SumOfPrefixes(blank, [0, 65, 65, 83, 135, 221, 341, 341, 343, 344, 346, 349, 353, 450, 450]);
    assert Fold(450 + 14) == 209;
  }

  /** And one answer, whose sum leaves the length out, as it is read. */
  lemma ExampleAnswer()
    ensures var d: seq<byte> := [0x41, 195, 0x12, 0x34, 0x56, 0x78, 0, 2, 1, 2, 3, 4, 0x61, 0];
            Accepts(d) && LengthFits(d) && Fields(d) == Packet(0x41, 0x1234, 0x5678, 0x0102_0304, [0x61, 0], [])
  {
    var d: seq<byte> := [0x41, 195, 0x12, 0x34, 0x56, 0x78, 0, 2, 1, 2, 3, 4, 0x61, 0];
    SumOfPrefixes(d, [0, 65, 260, 278, 330, 416, 536, 536, 538, 539, 541, 544, 548, 645, 645]);
    assert d[12..14] == [0x61, 0] && d[14..] == [];
  }
}
