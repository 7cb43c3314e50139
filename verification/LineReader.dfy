/**
 * Reading lines through a buffer that is shifted and refilled, from a stream
 * that may hand out its bytes in pieces of any size.
 */
module LineReader {
  import opened Bytes

  const NUL: byte := 0
  const LF: byte := 10
  const CR: byte := 13

  // ----- what a line is -----

  /** The first line feed, or the end. */
  function LfAt(s: seq<byte>): (i: nat)
    ensures i <= |s| && (i < |s| ==> s[i] == LF)
    ensures forall k | 0 <= k < i :: s[k] != LF
  {
    if s == [] || s[0] == LF then 0 else 1 + LfAt(s[1..])
  }

  lemma {:induction false} LfFound(s: seq<byte>, i: nat)
    requires i <= |s| && (i < |s| ==> s[i] == LF) && forall k | 0 <= k < i :: s[k] != LF
    ensures LfAt(s) == i
  {
    var j := LfAt(s);
    assert !(i < j) && !(j < i);
  }

  function StripCr(s: seq<byte>): seq<byte> {
    if |s| > 0 && s[|s| - 1] == CR then s[..|s| - 1] else s
  }

  /** How many of the pending bytes one call takes from a buffer of `max` bytes. */
  function Used(s: seq<byte>, max: nat): (n: nat)
    ensures n <= |s| && (s != [] && max > 0 ==> n > 0)
  {
    if LfAt(s) < |s| && LfAt(s) < max then LfAt(s) + 1
    else if |s| >= max then max
    else |s|
  }

  /** What the call makes of them: a line without its terminator, or a bufferful of an overlong line. */
  function Piece(s: seq<byte>, max: nat): seq<byte> {
    if LfAt(s) < |s| && LfAt(s) < max then StripCr(s[..LfAt(s)]) else s[..Used(s, max)]
  }

  function Pieces(s: seq<byte>, max: nat): seq<seq<byte>>
    requires max > 0
  {
    if s == [] then [] else [Piece(s, max)] + Pieces(s[Used(s, max)..], max)
  }

  /** The stream split on line feeds, each with one preceding carriage return removed. */
  function Lines(s: seq<byte>): seq<seq<byte>> {
    if s == [] then []
    else if LfAt(s) == |s| then [s]
    else [StripCr(s[..LfAt(s)])] + Lines(s[LfAt(s) + 1..])
  }

  /** Each line with its terminator fits `max` bytes, and an unterminated last line is shorter. */
  predicate FitsLines(s: seq<byte>, max: nat) {
    s == [] ||
    if LfAt(s) == |s| then |s| < max else LfAt(s) < max && FitsLines(s[LfAt(s) + 1..], max)
  }

  lemma {:induction false} PiecesAreLines(s: seq<byte>, max: nat)
    requires max > 0 && FitsLines(s, max)
    ensures Pieces(s, max) == Lines(s)
    decreases |s|
  {
    if s != [] {
      if LfAt(s) == |s| {
        assert s[..|s|] == s && s[|s|..] == [];
      } else {
        PiecesAreLines(s[LfAt(s) + 1..], max);
      }
    }
  }

  function Joined(pieces: seq<seq<byte>>): seq<byte> {
    if pieces == [] then [] else pieces[0] + Joined(pieces[1..])
  }

  /** Of bytes without a line feed nothing is lost, however short the buffer is. */
  lemma {:induction false} PiecesLoseNothing(s: seq<byte>, max: nat)
    requires max > 0 && LF !in s
    ensures Joined(Pieces(s, max)) == s
    ensures forall i | 0 <= i < |Pieces(s, max)| :: 0 < |Pieces(s, max)[i]| <= max
    ensures forall i | 0 <= i < |Pieces(s, max)| - 1 :: |Pieces(s, max)[i]| == max
    decreases |s|
  {
    if s != [] {
      LfFound(s, |s|);
      var n := Used(s, max);
      PiecesLoseNothing(s[n..], max);
      assert s == s[..n] + s[n..];
    }
  }

  // ----- the stream -----

  function PortionsAfter(portions: seq<nat>, n: int): seq<nat> {
    if n > 0 then portions + [n] else portions
  }

  /** Bytes still to come; each read hands out as many of them as it likes, but at least one. */
  class Stream {
    var rest: seq<byte>
    var errors: nat
    // How many bytes each read brought that brought any.
    ghost var portions: seq<nat>

    constructor (bytes: seq<byte>)
      ensures rest == bytes && errors == 0 && portions == []
    {
      rest, errors, portions := bytes, 0, [];
    }

    method Read(buf: array<byte>, at: nat, size: nat) returns (n: int)
      requires at + size <= buf.Length
      modifies this, buf
      ensures n < 0 ==> n == -1 && errors == old(errors) + 1 && rest == old(rest)
      ensures n >= 0 ==> errors == old(errors) && n <= size && n <= |old(rest)| && rest == old(rest)[n..]
      ensures n == 0 ==> size == 0 || old(rest) == []
      ensures n >= 0 ==> buf[..at + n] == old(buf[..at]) + old(rest)[..n]
      ensures portions == PortionsAfter(old(portions), n)
    {
      var fails: bool := *;
      if fails {
        errors := errors + 1;
        return -1;
      }
      n := *;
      var most := if size < |rest| then size else |rest|;
      if n < 1 || n > most {
        n := most;
      }
      forall i | 0 <= i < n {
        buf[at + i] := rest[i];
      }
      assert buf[at..at + n] == rest[..n];
      assert buf[..at + n] == buf[..at] + buf[at..at + n];
      rest := rest[n..];
      if n > 0 {
        portions := portions + [n];
      }
    }
  }

  // ----- the buffer -----

  class LineBuffer {
    const buffer: array<byte>
    const max: nat
    var curpos: nat
    var cur: nat
    var eof: bool
    // A terminator at or behind curpos.
    ghost var zero: nat

    constructor (max: nat)
      ensures this.max == max && buffer.Length == max + 1 && fresh(buffer)
      ensures curpos == 0 && cur == 0 && !eof && zero == max && buffer[max] == NUL
    {
      this.max := max;
      buffer := new byte[max + 1];
      curpos, cur, eof, zero := 0, 0, false, max;
      new;
      buffer[max] := NUL;
    }

    predicate Valid()
      reads this, buffer
    {
      && buffer.Length == max + 1 && max > 0
      && curpos + cur <= max
    }

    ghost predicate Terminated()
      requires Valid()
      reads this, buffer
    {
      && curpos <= zero <= max && buffer[zero] == NUL
      && (cur > 0 ==> zero == curpos + cur && NUL !in Unread())
      && (eof && cur > 0 ==> curpos == 0 && LfAt(Unread()) == cur)
    }

    function Unread(): seq<byte>
      requires Valid()
      reads this, buffer
    {
      buffer[curpos..curpos + cur]
    }

    /** Where the first line feed of the unread bytes is; -1 if a terminator comes first. */
    method FindLf() returns (pos: int)
      requires Valid() && Terminated()
      ensures cur > 0 && LfAt(Unread()) < cur ==> pos == curpos + LfAt(Unread())
      ensures cur > 0 && LfAt(Unread()) == cur ==> pos == -1
    {
      pos := curpos;
      while buffer[pos] != LF && buffer[pos] != NUL
        invariant curpos <= pos <= zero
        invariant forall k | curpos <= k < pos :: buffer[k] != LF
        decreases zero - pos
      {
        pos := pos + 1;
      }
      if cur > 0 {
        assert forall k | 0 <= k < pos - curpos :: Unread()[k] == buffer[curpos + k];
        if pos < zero {
          assert Unread()[pos - curpos] == buffer[pos];
        }
        LfFound(Unread(), pos - curpos);
      }
      if buffer[pos] == NUL {
        pos := -1;
      }
    }

    /** Moves the unread bytes to the front of the buffer. */
    method Shift()
      requires Valid()
      modifies this`curpos, buffer
      ensures Valid() && curpos == 0 && Unread() == old(Unread())
    {
      forall i | 0 <= i < cur {
        buffer[i] := buffer[curpos + i];
      }
      curpos := 0;
    }

    // The buffer is full from its start, or holds all there is.
    predicate EndOfBuffer()
      reads this
    {
      curpos == 0 && (max == cur || eof)
    }

    // Ends the line at `pos`, or what is unread, with a terminator, and copies it to `str`.
    method CopyLine(pos: int, str: array<byte>, len: nat) returns (nslen: nat)
      requires Valid() && cur > 0 && NUL !in Unread()
      requires if pos < 0 then curpos == 0 else LfAt(Unread()) < cur && pos == curpos + LfAt(Unread())
      requires 1 <= len <= str.Length && str != buffer
      modifies buffer, str
      ensures nslen == (if pos < 0 then cur else old(LfAt(Unread())) + 1) <= cur
      ensures Stored(str[..], if pos < 0 then old(Unread()) else StripCr(old(Unread())[..old(LfAt(Unread()))]), len)
      ensures forall i | curpos + nslen <= i <= max :: buffer[i] == if pos < 0 && i == cur then NUL else old(buffer[i])
    {
      hide LfAt, Stored;
      ghost var unread := Unread();
      ghost var piece := if pos < 0 then unread else StripCr(unread[..LfAt(unread)]);
      assert forall i | 0 <= i < cur :: buffer[curpos + i] == unread[i];
      if pos >= 0 {
        nslen := pos - curpos + 1;
        var end: nat := pos;
        if pos > curpos && buffer[pos - 1] == CR {
          end := end - 1;
        }
        assert end == curpos + |piece|;
        buffer[end] := NUL;
      } else {
        nslen := cur;
        buffer[nslen] := NUL;
      }
      assert forall i | 0 <= i < |piece| :: buffer[curpos + i] == unread[i] == piece[i];
      CopyString(str, len, piece);
    }

    /**
     * The line that ends at `pos`, or, with no line feed, everything unread, goes
     * to `str` as a string of at most len - 1 bytes.
     */
    method Extract(pos: int, str: array<byte>, len: nat) returns (nslen: nat)
      requires Valid() && Terminated() && cur > 0
      requires if pos < 0 then LfAt(Unread()) == cur && EndOfBuffer() else LfAt(Unread()) < cur && pos == curpos + LfAt(Unread())
      requires 1 <= len <= str.Length && str != buffer
      modifies this`curpos, this`cur, this`zero, buffer, str
      ensures Valid() && Terminated()
      ensures 0 < nslen == (if pos < 0 then old(cur) else old(LfAt(Unread())) + 1) <= old(cur)
      ensures Unread() == old(Unread())[nslen..]
      ensures Stored(str[..], if pos < 0 then old(Unread()) else StripCr(old(Unread())[..old(LfAt(Unread()))]), len)
    {
      hide LfAt, Stored, StripCr;
      ghost var unread := Unread();
      nslen := CopyLine(pos, str, len);
      cur := cur - nslen;
      if pos >= 0 {
        curpos := curpos + nslen;
      } else {
        cur := 0;
        zero := nslen;
      }
      assert Unread() == unread[nslen..];
    }

    // Copies at most len - 1 bytes up to the terminator, and pads with NUL.
    method CopyString(str: array<byte>, len: nat, ghost piece: seq<byte>)
      requires curpos + |piece| < buffer.Length && str != buffer && 1 <= len <= str.Length
      requires buffer[curpos + |piece|] == NUL && NUL !in piece
      requires forall i | 0 <= i < |piece| :: buffer[curpos + i] == piece[i]
      modifies str
      ensures Stored(str[..], piece, len)
    {
      var i := 0;
      while i < len && buffer[curpos + i] != NUL
        invariant 0 <= i <= len && i <= |piece|
        invariant forall k | 0 <= k < i :: str[k] == piece[k]
      {
        assert i != |piece|;
        str[i] := buffer[curpos + i];
        i := i + 1;
      }
      assert i < len ==> i == |piece| by {
        if i < |piece| {
          assert piece[i] in piece;
        }
      }
      ghost var copied := i;
      while i < len
        invariant copied <= i <= len
        invariant forall k | 0 <= k < copied :: str[k] == piece[k]
        invariant forall k | copied <= k < i :: str[k] == NUL
      {
        str[i] := NUL;
        i := i + 1;
      }
      str[len - 1] := NUL;
    }

    /** Moves what is unread to the front and reads on; 0 with nothing unread means the end of the stream. */
    method Refill(stream: Stream) returns (ret: int)
      requires Valid() && Terminated() && (eof ==> stream.rest == []) && NUL !in stream.rest
      requires cur > 0 ==> LfAt(Unread()) == cur && !EndOfBuffer()
      modifies this`curpos, this`cur, this`zero, this`eof, buffer, stream
      ensures ret >= -1 && stream.errors == old(stream.errors) + if ret < 0 then 1 else 0
      ensures ret == 0 && cur == 0 ==> old(Unread() + stream.rest) == [] == stream.rest
      ensures ret > 0 || (ret == 0 && cur > 0) ==>
                && Valid() && Terminated() && cur > 0 && curpos == 0
                && Unread() + stream.rest == old(Unread() + stream.rest)
                && (eof ==> stream.rest == [])
                && (if ret == 0 then eof else |stream.rest| < |old(stream.rest)| && eof == old(eof))
    {
      ghost var unread, rest := Unread(), stream.rest;
      hide LfAt;
      var at, rlen := MakeRoom();
      if eof {
        ret := 0;
      } else {
        ret := stream.Read(buffer, at, rlen);
        if ret < 0 {
          return ret;
        }
      }
      if ret == 0 {
        if cur == 0 {
          return 0;
        }
        eof := true;
      }
      assert buffer[..cur + ret] == unread + rest[..ret];
      Append(ret);
      assert rest == rest[..ret] + stream.rest && Unread() == unread + rest[..ret];
    }

    // Where the next read goes, and how much it may bring.
    method MakeRoom() returns (at: nat, rlen: nat)
      requires Valid() && Terminated()
      modifies this`curpos, buffer
      ensures Valid() && curpos == 0 && at == cur && rlen == max - cur && buffer[..cur] == old(Unread())
    {
      assert cur > 0 ==> buffer[curpos] != NUL by {
        if cur > 0 {
          assert Unread()[0] == buffer[curpos];
        }
      }
      if cur == 0 || buffer[curpos] == NUL {
        rlen := max;
        at := 0;
      } else {
        Shift();
        at := cur;
        rlen := max - cur;
      }
      curpos := 0;
    }

    // Takes n more bytes behind the unread ones as read.
    method Append(n: nat)
      requires Valid() && curpos == 0 && cur + n <= max && NUL !in buffer[..cur + n] && cur + n > 0
      requires eof ==> LfAt(buffer[..cur + n]) == cur + n
      modifies this`cur, this`zero, buffer
      ensures Valid() && Terminated() && cur == old(cur) + n && curpos == 0
      ensures Unread() == old(buffer[..cur + n])
    {
      cur := cur + n;
      buffer[cur] := NUL;
      zero := cur;
    }
  }

  /** `str` holds the first len - 1 bytes of `piece` as a zero-padded string. */
  predicate Stored(str: seq<byte>, piece: seq<byte>, len: nat) {
    && len <= |str|
    && forall i | 0 <= i < len :: str[i] == if i < |piece| && i < len - 1 then piece[i] else NUL
  }

  lemma DropOfConcat(a: seq<byte>, b: seq<byte>, n: nat)
    requires n <= |a|
    ensures (a + b)[n..] == a[n..] + b
  {
  }

  // The unread bytes decide the piece once they end a line ...
  lemma {:induction false} PieceIsLine(unread: seq<byte>, rest: seq<byte>, max: nat)
    requires |unread| <= max && LfAt(unread) < |unread|
    ensures var s := unread + rest;
            Used(s, max) == LfAt(unread) + 1 && Piece(s, max) == StripCr(unread[..LfAt(unread)])
  {
    hide LfAt, StripCr;
    var s, i := unread + rest, LfAt(unread);
    LfFound(s, i);
    assert s[..i] == unread[..i];
  }

  // ... or fill the buffer, or are all there is.
  lemma PieceIsBufferful(unread: seq<byte>, rest: seq<byte>, max: nat)
    requires 0 < |unread| <= max && LfAt(unread) == |unread| && (|unread| == max || rest == [])
    ensures var s := unread + rest;
            Used(s, max) == |unread| && Piece(s, max) == unread
  {
    hide LfAt, StripCr;
    var s := unread + rest;
    assert forall k | 0 <= k < |unread| :: s[k] == unread[k];
    assert s[..|unread|] == unread;
  }

  /** A connection that lines are read from. */
  class LineSource {
    const stream: Stream
    var rbuf: LineBuffer?

    constructor (stream: Stream)
      ensures this.stream == stream && rbuf == null
    {
      this.stream, rbuf := stream, null;
    }

    ghost predicate Valid()
      reads this, stream, rbuf, if rbuf == null then {} else {rbuf.buffer}
    {
      rbuf != null ==> rbuf.Valid() && rbuf.Terminated() && (rbuf.eof ==> stream.rest == [])
    }

    /** Everything not handed out yet: what is in the buffer, then what is still to come. */
    ghost function Pending(): seq<byte>
      requires Valid()
      reads this, stream, rbuf, if rbuf == null then {} else {rbuf.buffer}
    {
      (if rbuf == null then [] else rbuf.Unread()) + stream.rest
    }

    // What the calls may change: the buffer in use now, and buffers yet to be allocated.
    ghost function Footprint(): set<object>
      reads this
    {
      {this, stream} + if rbuf == null then {} else {rbuf, rbuf.buffer}
    }

    function Max(len: nat): nat
      reads this
    {
      if rbuf == null then len else rbuf.max
    }

    /**
     * gftp_get_line: however the stream hands out its bytes, one call takes the
     * next piece of what is pending, and nothing else.
     */
    method GetLine(str: array<byte>, len: nat) returns (ret: int)
      requires Valid() && NUL !in Pending()
      requires 1 <= len <= str.Length && str !in Footprint()
      modifies Footprint(), str
      ensures fresh(Footprint() - old(Footprint()))
      ensures Valid()
      ensures ret > 0 ==>
                && rbuf != null && rbuf.max == old(Max(len))
                && old(Pending()) != [] && ret == Used(old(Pending()), rbuf.max)
                && Stored(str[..], Piece(old(Pending()), rbuf.max), len)
                && Pending() == old(Pending())[ret..]
      ensures ret == 0 ==> old(Pending()) == [] && rbuf == null && Pending() == []
      ensures ret <= 0 ==> str[..] == old(str[..])
      // A failed read frees the buffer, with whatever was in it.
      ensures ret >= -1 && stream.errors == old(stream.errors) + if ret < 0 then 1 else 0
      ensures ret < 0 ==> rbuf == null
    {
      hide LfAt, Used, Piece, Stored, StripCr;
      ghost var pending := Pending();
      if rbuf == null {
        ret := Start(len);
        if ret <= 0 {
          return ret;
        }
      }
      assert Pending() == pending;
      var pos;
      ret, pos := Prepare();
      if ret > 0 {
        assert Pending() == pending && rbuf.max == old(Max(len));
        ret := HandOver(pos, str, len);
      }
    }

    // Refills until the buffer has what the next piece takes.
    method Prepare() returns (ret: int, pos: int)
      requires rbuf != null && Valid() && NUL !in Pending()
      modifies this, stream, rbuf, rbuf.buffer
      ensures ret >= -1 && stream.errors == old(stream.errors) + if ret < 0 then 1 else 0
      ensures ret <= 0 ==> rbuf == null
      ensures ret == 0 ==> old(Pending()) == [] == stream.rest
      ensures ret > 0 ==> rbuf == old(rbuf) && Valid() && Pending() == old(Pending()) && Ready(pos)
    {
      hide LfAt;
      ghost var pending, it := Pending(), rbuf;
      while true
        invariant rbuf == it && Valid() && Pending() == pending && stream.errors == old(stream.errors)
        decreases |stream.rest|, if rbuf.eof then 0 else 1
      {
        pos := rbuf.FindLf();
        if rbuf.cur > 0 && (pos >= 0 || rbuf.EndOfBuffer()) {
          return 1, pos;
        }
        ret := rbuf.Refill(stream);
        if ret < 0 || (ret == 0 && rbuf.cur == 0) {
          rbuf := null;
          return ret, pos;
        }
      }
    }

    // The buffer has what the next piece takes, and `pos` says where its line ends, if it does.
    ghost predicate Ready(pos: int)
      requires rbuf != null && Valid()
      reads this, stream, rbuf, if rbuf == null then {} else {rbuf.buffer}
    {
      && rbuf.cur > 0
      && if pos < 0 then LfAt(rbuf.Unread()) == rbuf.cur && rbuf.EndOfBuffer()
         else LfAt(rbuf.Unread()) < rbuf.cur && pos == rbuf.curpos + LfAt(rbuf.Unread())
    }

    // Allocates the buffer and reads into it for the first time.
    method Start(len: nat) returns (ret: int)
      requires rbuf == null && len > 0 && NUL !in stream.rest
      modifies this, stream
      ensures ret >= -1 && stream.errors == old(stream.errors) + if ret < 0 then 1 else 0
      ensures ret <= 0 ==> rbuf == null
      ensures ret == 0 ==> old(stream.rest) == [] == stream.rest
      ensures ret > 0 ==> rbuf != null && fresh(rbuf) && fresh(rbuf.buffer) && rbuf.max == len
      ensures ret > 0 ==> Valid() && Pending() == old(stream.rest)
    {
      hide LfAt;
      rbuf := new LineBuffer(len);
      ret := stream.Read(rbuf.buffer, 0, rbuf.max);
      if ret <= 0 {
        rbuf := null;
        return ret;
      }
      ghost var got := old(stream.rest)[..ret];
      assert rbuf.buffer[..ret] == got;
      rbuf.Append(ret);
      assert rbuf.Unread() == got;
      assert got + stream.rest == old(stream.rest);
    }

    // The buffer has what the next piece takes.
    method HandOver(pos: int, str: array<byte>, len: nat) returns (ret: int)
      requires rbuf != null && Valid() && Ready(pos)
      requires 1 <= len <= str.Length && str != rbuf.buffer
      modifies rbuf`curpos, rbuf`cur, rbuf`zero, rbuf.buffer, str
      ensures Valid()
      ensures old(Pending()) != [] && ret == Used(old(Pending()), rbuf.max) > 0
      ensures Stored(str[..], Piece(old(Pending()), rbuf.max), len)
      ensures Pending() == old(Pending())[ret..]
    {
      hide LfAt, Used, Piece, Stored, StripCr;
      ghost var pending, unread := Pending(), rbuf.Unread();
      assert |unread| == rbuf.cur;
      if pos < 0 {
        PieceIsBufferful(unread, stream.rest, rbuf.max);
      } else {
        PieceIsLine(unread, stream.rest, rbuf.max);
      }
      DropOfConcat(unread, stream.rest, Used(pending, rbuf.max));
      ret := rbuf.Extract(pos, str, len);
    }
  }

  // ----- whole streams -----

  function CString(s: seq<byte>): (r: seq<byte>)
    ensures NUL !in r && r <= s && (|r| < |s| ==> s[|r|] == NUL)
  {
    if s == [] || s[0] == NUL then [] else [s[0]] + CString(s[1..])
  }

  function Cut(piece: seq<byte>, len: nat): seq<byte> {
    if |piece| < len || len == 0 then piece else piece[..len - 1]
  }

  lemma StoredIsCut(str: seq<byte>, piece: seq<byte>, len: nat)
    requires 1 <= len && Stored(str, piece, len) && NUL !in piece
    ensures CString(str) == Cut(piece, len)
  {
    CStringIs(str, Cut(piece, len));
  }

  lemma {:induction false} CStringIs(s: seq<byte>, r: seq<byte>)
    requires r < s && NUL !in r && s[|r|] == NUL
    ensures CString(s) == r
  {
    if r != [] {
      CStringIs(s[1..], r[1..]);
    }
  }

  function CutAll(pieces: seq<seq<byte>>, len: nat): seq<seq<byte>> {
    if pieces == [] then [] else [Cut(pieces[0], len)] + CutAll(pieces[1..], len)
  }

  lemma PieceHasNoNul(s: seq<byte>, max: nat)
    requires NUL !in s
    ensures NUL !in Piece(s, max) && NUL !in s[Used(s, max)..]
  {
  }

  lemma {:induction false} FittingLinesAreNotCut(s: seq<byte>, max: nat)
    requires max > 0 && FitsLines(s, max)
    ensures CutAll(Pieces(s, max), max) == Lines(s)
    decreases |s|
  {
    PiecesAreLines(s, max);
    if s != [] {
      if LfAt(s) < |s| {
        FittingLinesAreNotCut(s[LfAt(s) + 1..], max);
      } else {
        assert s[|s|..] == [] && s[..|s|] == s;
      }
    }
  }

  // What repeated calls with a buffer of `max` bytes and strings of `len` bytes give.
  function Strings(s: seq<byte>, len: nat): seq<seq<byte>>
    requires len > 0
  {
    CutAll(Pieces(s, len), len)
  }

  lemma StringsStep(s: seq<byte>, len: nat)
    requires len > 0 && s != []
    ensures Strings(s, len) == [Cut(Piece(s, len), len)] + Strings(s[Used(s, len)..], len)
  {
    assert Pieces(s, len)[1..] == Pieces(s[Used(s, len)..], len);
  }

  /** One call, with the string it stored. */
  method GetString(src: LineSource, str: array<byte>, len: nat) returns (ret: int, line: seq<byte>)
    requires src.Valid() && NUL !in src.Pending()
    requires 1 <= len <= str.Length && str !in src.Footprint()
    modifies src.Footprint(), str
    ensures fresh(src.Footprint() - old(src.Footprint())) && str !in src.Footprint()
    ensures src.Valid() && (ret >= 0 ==> NUL !in src.Pending())
    ensures ret > 0 ==>
              && src.Max(len) == old(src.Max(len))
              && old(src.Pending()) != [] && ret == Used(old(src.Pending()), src.Max(len))
              && line == CString(str[..]) == Cut(Piece(old(src.Pending()), src.Max(len)), len)
              && src.Pending() == old(src.Pending())[ret..]
    ensures ret == 0 ==> old(src.Pending()) == [] == src.Pending() && src.rbuf == null
    ensures ret <= 0 ==> str[..] == old(str[..])
    ensures ret >= -1 && src.stream.errors == old(src.stream.errors) + if ret < 0 then 1 else 0
    ensures ret < 0 ==> src.rbuf == null
  {
    hide Used, Piece, Stored, Cut;
    ghost var before := src.Pending();
    ret := src.GetLine(str, len);
    if ret > 0 {
      PieceHasNoNul(before, src.rbuf.max);
      StoredIsCut(str[..], Piece(before, src.rbuf.max), len);
      line := CString(str[..]);
    } else {
      line := [];
    }
  }

  /**
   * Repeated calls until the stream ends: whatever way its bytes arrive, the
   * lines are those of the stream, and the return values add up to its length.
   */
  method ReadAllLines(src: LineSource, len: nat) returns (lines: seq<seq<byte>>, total: nat, ret: int)
    requires src.Valid() && src.rbuf == null && NUL !in src.stream.rest && len > 0
    modifies src, src.stream
    ensures ret <= 0 && src.stream.errors == old(src.stream.errors) + if ret < 0 then 1 else 0
    ensures ret == 0 ==> total == |old(src.stream.rest)|
    ensures ret == 0 ==> lines == Strings(old(src.stream.rest), len)
    ensures ret == 0 && FitsLines(old(src.stream.rest), len) ==> lines == Lines(old(src.stream.rest))
  {
    hide Used, Piece, Cut, CutAll, Pieces, FitsLines;
    ghost var all, pending := src.stream.rest, src.stream.rest;
    assert src.Pending() == all;
    var str := new byte[len];
    lines, total, ret := [], 0, 1;
    while ret > 0
      invariant src.stream.errors == old(src.stream.errors) + if ret < 0 then 1 else 0
      invariant fresh(src.Footprint() - {src, src.stream}) && str !in src.Footprint()
      invariant src.Valid() && (ret > 0 ==> src.Max(len) == len)
      invariant ret >= 0 ==> src.Pending() == pending && NUL !in pending
      invariant ret >= 0 ==> total + |pending| == |all| && lines + Strings(pending, len) == Strings(all, len)
      invariant ret == 0 ==> pending == []
      decreases if ret > 0 then 1 + |pending| else 0
    {
      var line;
      ret, line := GetString(src, str, len);
      if ret > 0 {
        StringsStep(pending, len);
        AppendMoves(lines, line, Strings(pending[ret..], len));
        pending := pending[ret..];
        total := total + ret;
        lines := lines + [line];
      }
    }
    if ret == 0 {
      EmptyStrings(len);
      assert lines + [] == lines;
      if FitsLines(all, len) {
        FittingLinesAreNotCut(all, len);
      }
    }
  }

  lemma AppendMoves(a: seq<seq<byte>>, x: seq<byte>, b: seq<seq<byte>>)
    ensures a + ([x] + b) == a + [x] + b
  {
  }

  lemma EmptyStrings(len: nat)
    requires len > 0
    ensures Strings([], len) == []
  {
  }

  // ----- the sender's side -----

  datatype WireLine = WireLine(text: seq<byte>, crlf: bool)

  /** A line feed ends a line, so a text has none; a text before a bare line feed does not end in a carriage return. */
  predicate Sendable(line: WireLine) {
    LF !in line.text && (line.crlf || |line.text| == 0 || line.text[|line.text| - 1] != CR)
  }

  function WireBytes(line: WireLine): seq<byte> {
    line.text + if line.crlf then [13, 10] else [10]
  }

  function Wire(lines: seq<WireLine>): seq<byte> {
    if lines == [] then [] else WireBytes(lines[0]) + Wire(lines[1..])
  }

  function Texts(lines: seq<WireLine>): seq<seq<byte>> {
    if lines == [] then [] else [lines[0].text] + Texts(lines[1..])
  }

  /** The first line of what is sent, and what follows it. */
  lemma FirstWireLine(line: WireLine, rest: seq<byte>)
    requires Sendable(line)
    ensures var s := WireBytes(line) + rest;
            LfAt(s) == |WireBytes(line)| - 1 && StripCr(s[..LfAt(s)]) == line.text && s[LfAt(s) + 1..] == rest
  {
    var w := WireBytes(line);
    var s := w + rest;
    var i := |w| - 1;
    assert forall k | 0 <= k < |line.text| :: s[k] == line.text[k] && line.text[k] in line.text;
    LfFound(s, i);
    if line.crlf {
      assert s[..i] == line.text + [CR];
    } else {
      assert s[..i] == line.text;
    }
  }

  /** Splitting what was sent gives back the texts that were sent. */
  lemma {:induction false} LinesOfWire(lines: seq<WireLine>)
    requires forall line | line in lines :: Sendable(line)
    ensures Lines(Wire(lines)) == Texts(lines)
  {
    if lines != [] {
      FirstWireLine(lines[0], Wire(lines[1..]));
      LinesOfWire(lines[1..]);
    }
  }
}
