/**
 * Reading FTP replies (section 4.2 of RFC 959) off the control connection: the
 * lines up to the first one that starts with three digits and a space.
 */
module FtpReply {
  import opened Basics
  import opened Bytes
  import opened LineReader

  const LINE_SIZE: nat := 255
  const SPACE: byte := 32
  const GFTP_EFATAL := -2
  const GFTP_ETIMEDOUT := -5

  predicate IsDigit(b: byte) {
    48 <= b <= 57
  }

  predicate StartsWithCode(line: seq<byte>) {
    |line| >= 3 && IsDigit(line[0]) && IsDigit(line[1]) && IsDigit(line[2])
  }

  predicate IsFinal(line: seq<byte>) {
    StartsWithCode(line) && |line| >= 4 && line[3] == SPACE
  }

  /** A line the reader stops at; a blank line only counts while no code was seen yet. */
  predicate StopsAt(line: seq<byte>, seen: bool) {
    IsFinal(line) || (line == [] && !seen)
  }

  // Their first four characters agree; the code starts out as the empty string.
  predicate SameCode(code: seq<byte>, line: seq<byte>) {
    if code == [] then line == [] else code <= line
  }

  /** The three digits of a reply code. */
  function CodeText(code: nat): seq<byte>
    requires code < 1000
  {
    ['0' as int + code / 100, '0' as int + code / 10 % 10, '0' as int + code % 10]
  }

  lemma {:induction false} CodeOf(line: seq<byte>) returns (code: nat)
    requires StartsWithCode(line)
    ensures code < 1000 && CodeText(code) <= line
  {
    var a, b, c := line[0] as int - 48, line[1] as int - 48, line[2] as int - 48;
    code := a * 100 + b * 10 + c;
    assert code / 100 == a && code / 10 % 10 == b && code % 10 == c;
    assert line[..3] == CodeText(code);
  }

  /** A line starts with a code if it starts with three digits, and ends the reply if a blank follows. */
  lemma {:induction false} WhichLinesEnd(line: seq<byte>)
    ensures StartsWithCode(line) <==> exists code: nat :: code < 1000 && CodeText(code) <= line
    ensures IsFinal(line) <==> exists code: nat :: code < 1000 && CodeText(code) + [' ' as int] <= line
  {
    if StartsWithCode(line) {
      var code := CodeOf(line);
      if IsFinal(line) {
        assert line[..4] == CodeText(code) + [' ' as int];
      }
    }
    forall code: nat | code < 1000 && CodeText(code) + [' ' as int] <= line
      ensures IsFinal(line) && CodeText(code) <= line
    {
      assert line[..4] == CodeText(code) + [' ' as int];
      assert line[..3] == CodeText(code);
    }
  }

  /** A blank line ends the reply if no code was seen yet, and is passed over after that. */
  lemma BlankLine(rest: seq<byte>, seen: bool, last: Option<seq<byte>>)
    ensures NextReply([10] + rest, seen, last) == if seen then NextReply(rest, true, Some([])) else Complete([], rest)
  {
    hide NextReply;
    var blank := WireLine([], false);
    assert WireBytes(blank) == [10];
    FittingLineIsPiece(blank, rest);
    NextReplyStep([10] + rest, seen, last);
  }

  /** A reply as it is read: its last line and what follows, or the end of the stream, with the last line before that if any. */
  datatype Outcome = Complete(line: seq<byte>, rest: seq<byte>) | EndOfStream(last: Option<seq<byte>>)

  /** The reply at the front of the pending bytes; `last` is the line read before. */
  function NextReply(s: seq<byte>, seen: bool, last: Option<seq<byte>>): Outcome {
    if s == [] then EndOfStream(last)
    else
      var line, rest := Cut(Piece(s, LINE_SIZE), LINE_SIZE), s[Used(s, LINE_SIZE)..];
      if StopsAt(line, seen) then Complete(line, rest)
      else NextReply(rest, seen || StartsWithCode(line), Some(line))
  }

  /** A control connection and the last line it got. */
  class Control {
    const src: LineSource
    var connected: bool
    var last_ftp_response: seq<byte>

    constructor (stream: Stream)
      ensures fresh(src) && src.stream == stream && src.rbuf == null && connected && last_ftp_response == []
    {
      src := new LineSource(stream);
      connected, last_ftp_response := true, [];
    }

    ghost predicate Valid()
      reads src, src.stream, src.rbuf, if src.rbuf == null then {} else {src.rbuf.buffer}
    {
      src.Valid() && src.Max(LINE_SIZE) == LINE_SIZE && NUL !in src.Pending()
    }

    /**
     * The reply at the front of what was pending has been read, and `line` is its
     * last line: of one cut short, the last that came, if any did.
     */
    ghost predicate TookIn(before: seq<byte>, line: seq<byte>)
      reads src, src.stream, src.rbuf, if src.rbuf == null then {} else {src.rbuf.buffer}
    {
      Valid() &&
      match NextReply(before, false, None)
      case Complete(l, rest) => line == l && src.Pending() == rest
      case EndOfStream(Some(l)) => line == l && src.Pending() == []
      case EndOfStream(None) => before == [] == src.Pending()
    }

    /** Reads up to the line that ends the reply, which is left in `tempstr`. */
    method ReadToFinal(tempstr: array<byte>) returns (num_read: int)
      requires Valid() && tempstr !in src.Footprint() && tempstr.Length == LINE_SIZE
      modifies src.Footprint(), tempstr
      ensures fresh(src.Footprint() - old(src.Footprint())) && src.Valid()
      ensures num_read >= -1 && src.stream.errors == old(src.stream.errors) + if num_read < 0 then 1 else 0
      ensures num_read >= 0 ==> TookIn(old(src.Pending()), CString(tempstr[..]))
    {
      hide Used, Piece, Cut, NextReply;
      var code: seq<byte> := [];
      ghost var all, pending, last := src.Pending(), src.Pending(), None;
      while true
        invariant fresh(src.Footprint() - old(src.Footprint())) && tempstr !in src.Footprint()
        invariant Valid() && src.Pending() == pending && src.stream.errors == old(src.stream.errors)
        invariant IsCode(code) && (last.Some? ==> CString(tempstr[..]) == last.value)
        invariant NextReply(all, false, None) == NextReply(pending, code != [], last)
        decreases |pending|
      {
        var line;
        num_read, line := GetString(src, tempstr, LINE_SIZE);
        if num_read <= 0 {
          EndOfReplies(code != [], last);
          NothingPending(all);
          return num_read;
        }
        NextReplyStep(pending, code != [], last);
        pending := pending[num_read..];
        last := Some(line);
        CodeStep(code, line);
        if StartsWithCode(line) {
          code := line[..3] + [SPACE];
        }
        if SameCode(code, line) {
          return num_read;
        }
      }
    }

    /**
     * rfc959_read_response: however the bytes arrive, one call consumes the reply
     * at the front of what is pending and returns the first byte of its last line. A
     * reply that the end of the stream cuts short is taken for whole: its last line is
     * the last one that came.
     */
    method ReadResponse(disconnectOn42x: bool) returns (ret: int)
      requires Valid()
      modifies this, src.Footprint()
      ensures fresh(src.Footprint() - old(src.Footprint())) && src.Valid()
      ensures !old(connected) ==> ret == GFTP_EFATAL && src.Pending() == old(src.Pending()) && last_ftp_response == old(last_ftp_response)
      ensures src.stream.errors == old(src.stream.errors) + if ret == -1 then 1 else 0
      ensures old(connected) && ret != -1 ==> TookIn(old(src.Pending()), last_ftp_response)
      ensures old(connected) && ret != -1 ==>
                if [52, 50] <= last_ftp_response && disconnectOn42x then ret == GFTP_ETIMEDOUT && !connected
                else connected && ret == if last_ftp_response == [] then 0 else last_ftp_response[0]
    {
      hide TookIn, LineReader.LineSource.Valid, LineReader.CString;
      if !connected {
        return GFTP_EFATAL;
      }
      var tempstr := new byte[LINE_SIZE];
      last_ftp_response := [];
      var num_read := ReadToFinal(tempstr);
      if num_read < 0 {
        return num_read;
      }
      ret := Keep(tempstr, disconnectOn42x);
    }

    // Keeps the last line; at the end of the stream that is the line read before, or nothing ever written.
    method Keep(tempstr: array<byte>, disconnectOn42x: bool) returns (ret: int)
      requires connected
      modifies this
      ensures last_ftp_response == CString(tempstr[..])
      ensures if [52, 50] <= last_ftp_response && disconnectOn42x then ret == GFTP_ETIMEDOUT && !connected
              else connected && ret == if last_ftp_response == [] then 0 else last_ftp_response[0]
    {
      last_ftp_response := CString(tempstr[..]);
      var line := last_ftp_response;
      if |line| >= 2 && line[0] == 52 && line[1] == 50 && disconnectOn42x {
        connected := false;
        return GFTP_ETIMEDOUT;
      }
      return if line == [] then 0 else line[0];
    }
  }

  // What the code variable may hold: nothing yet, or three digits and a space.
  predicate IsCode(code: seq<byte>) {
    code == [] || (|code| == 4 && IsDigit(code[0]) && IsDigit(code[1]) && IsDigit(code[2]) && code[3] == SPACE)
  }

  lemma CodeStep(code: seq<byte>, line: seq<byte>)
    requires IsCode(code)
    ensures var next := if StartsWithCode(line) then line[..3] + [SPACE] else code;
            && IsCode(next) && (next != [] <==> code != [] || StartsWithCode(line))
            && (SameCode(next, line) <==> StopsAt(line, code != []))
  {
    var next := if StartsWithCode(line) then line[..3] + [SPACE] else code;
    if StartsWithCode(line) && |line| >= 4 && line[3] == SPACE {
      assert next == line[..4];
    }
  }

  lemma NextReplyStep(s: seq<byte>, seen: bool, last: Option<seq<byte>>)
    requires s != []
    ensures var line, rest := Cut(Piece(s, LINE_SIZE), LINE_SIZE), s[Used(s, LINE_SIZE)..];
            NextReply(s, seen, last) ==
              if StopsAt(line, seen) then Complete(line, rest) else NextReply(rest, seen || StartsWithCode(line), Some(line))
  {
  }

  lemma {:induction false} NothingPending(s: seq<byte>)
    ensures NextReply(s, false, None) == EndOfStream(None) ==> s == []
  {
    if s != [] {
      hide NextReply;
      NextReplyStep(s, false, None);
      var line, rest := Cut(Piece(s, LINE_SIZE), LINE_SIZE), s[Used(s, LINE_SIZE)..];
      LastIsKept(rest, StartsWithCode(line), line);
    }
  }

  lemma {:induction false} LastIsKept(s: seq<byte>, seen: bool, last: seq<byte>)
    ensures NextReply(s, seen, Some(last)).EndOfStream? ==> NextReply(s, seen, Some(last)).last.Some?
    decreases |s|
  {
    hide Used, Piece, Cut;
    if s != [] {
      var line, rest := Cut(Piece(s, LINE_SIZE), LINE_SIZE), s[Used(s, LINE_SIZE)..];
      LastIsKept(rest, seen || StartsWithCode(line), line);
    }
  }

  lemma EndOfReplies(seen: bool, last: Option<seq<byte>>)
    ensures NextReply([], seen, last) == EndOfStream(last)
  {
  }

  // ----- replies as a server sends them (section 4.2 of RFC 959) -----

  /** A line the buffer holds with its terminator. */
  predicate LineFits(line: WireLine) {
    Sendable(line) && |WireBytes(line)| <= LINE_SIZE && NUL !in line.text
  }

  /**
   * One line with a code and a space, or several of which the first starts with
   * a code and no line but the last starts with a code and a space.
   */
  predicate WellFormedReply(reply: seq<WireLine>) {
    && reply != [] && IsFinal(reply[|reply| - 1].text)
    && (forall line | line in reply :: LineFits(line))
    && StartsWithCode(reply[0].text)
    && forall i | 0 <= i < |reply| - 1 :: !IsFinal(reply[i].text)
  }

  lemma FittingLineIsPiece(line: WireLine, rest: seq<byte>)
    requires LineFits(line)
    ensures var s := WireBytes(line) + rest;
            && s != [] && Cut(Piece(s, LINE_SIZE), LINE_SIZE) == line.text && s[Used(s, LINE_SIZE)..] == rest
  {
    FirstWireLine(line, rest);
  }

  lemma {:induction false} RestOfReply(lines: seq<WireLine>, rest: seq<byte>, seen: bool, last: Option<seq<byte>>)
    requires lines != [] && IsFinal(lines[|lines| - 1].text) && (forall line | line in lines :: LineFits(line))
    requires forall i | 0 <= i < |lines| - 1 :: !IsFinal(lines[i].text)
    requires seen || StartsWithCode(lines[0].text)
    ensures NextReply(Wire(lines) + rest, seen, last) == Complete(lines[|lines| - 1].text, rest)
  {
    hide Used, Piece, Cut, WireBytes, NextReply;
    var line, tail := lines[0], lines[1..];
    var s := Wire(lines) + rest;
    assert s == WireBytes(line) + (Wire(tail) + rest);
    FittingLineIsPiece(line, Wire(tail) + rest);
    NextReplyStep(s, seen, last);
    if tail == [] {
      assert Wire(tail) + rest == rest;
    } else {
      RestOfReply(tail, rest, true, Some(line.text));
    }
  }

  /** A reply cut off before its last line is read as ending with the last line that came. */
  lemma {:induction false} CutShortReply(lines: seq<WireLine>, seen: bool, last: Option<seq<byte>>)
    requires lines != [] && forall line | line in lines :: LineFits(line) && !IsFinal(line.text)
    requires seen || StartsWithCode(lines[0].text)
    ensures NextReply(Wire(lines), seen, last) == EndOfStream(Some(lines[|lines| - 1].text))
  {
    hide Used, Piece, Cut, WireBytes, NextReply, IsFinal, LineFits;
    var line, tail := lines[0], lines[1..];
    assert line in lines;
    FittingLineIsPiece(line, Wire(tail));
    NextReplyStep(Wire(lines), seen, last);
    if tail == [] {
      EndOfReplies(true, Some(line.text));
    } else {
      CutShortReply(tail, true, Some(line.text));
    }
  }

  function Replies(replies: seq<seq<WireLine>>): seq<byte> {
    if replies == [] then [] else Wire(replies[0]) + Replies(replies[1..])
  }

  /**
   * On a stream of well-formed replies the k-th call consumes exactly the k-th
   * reply and returns its first digit, however the stream is cut into reads.
   */
  method ReadReplies(control: Control, ghost replies: seq<seq<WireLine>>, count: nat) returns (codes: seq<int>)
    requires control.Valid() && control.connected && count == |replies|
    requires control.src.Pending() == Replies(replies)
    requires forall r | r in replies :: WellFormedReply(r)
    modifies control, control.src.Footprint()
    ensures control.src.Valid()
    ensures control.src.stream.errors == old(control.src.stream.errors) ==> |codes| == count && control.src.Pending() == []
    ensures |codes| <= count && forall k | 0 <= k < |codes| :: LastText(replies[k]) != [] && codes[k] == LastText(replies[k])[0]
  {
    hide NextReply, WellFormedReply, LineReader.LineSource.Valid;
    codes := [];
    ghost var src := control.src;
    for k := 0 to count
      invariant fresh(src.Footprint() - old(src.Footprint()))
      invariant control.Valid() && control.connected && src.stream.errors == old(src.stream.errors)
      invariant src.Pending() == Replies(replies[k..]) && |codes| == k
      invariant forall j | 0 <= j < k :: LastText(replies[j]) != [] && codes[j] == LastText(replies[j])[0]
    {
      ReplyAtFront(replies[k], Replies(replies[k + 1..]));
      assert replies[k..][1..] == replies[k + 1..];
      var ret := control.ReadResponse(false);
      if ret == -1 {
        return;
      }
      codes := codes + [ret];
    }
  }

  function LastText(reply: seq<WireLine>): seq<byte> {
    if reply == [] then [] else reply[|reply| - 1].text
  }

  lemma ReplyAtFront(reply: seq<WireLine>, rest: seq<byte>)
    requires WellFormedReply(reply)
    ensures NextReply(Wire(reply) + rest, false, None) == Complete(LastText(reply), rest) && LastText(reply) != []
  {
    RestOfReply(reply, rest, false, None);
  }
}
