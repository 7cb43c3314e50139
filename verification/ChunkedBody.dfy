/**
 * Decoding a chunked body (section 3.6.1 of RFC 2068) in the caller's buffer,
 * with undecoded bytes carried from one call to the next.
 */
module ChunkedBody {
  import opened Basics
  import opened Bytes
  import opened LineReader

  const GFTP_EFATAL := -2

  // ----- reading a chunk size, as sscanf does with %lx -----

  function HexDigit(b: byte): int {
    if 48 <= b <= 57 then b - 48
    else if 97 <= b <= 102 then b - 87
    else if 65 <= b <= 70 then b - 55
    else -1
  }

  function HexPrefix(s: seq<byte>, value: nat): nat {
    if s == [] || HexDigit(s[0]) < 0 then value else HexPrefix(s[1..], value * 16 + HexDigit(s[0]))
  }

  predicate IsBlank(b: byte) {
    b == 32 || 9 <= b <= 13
  }

  function ScanHex(s: seq<byte>): Option<nat> {
    if s == [] then None
    else if IsBlank(s[0]) then ScanHex(s[1..])
    else if HexDigit(s[0]) < 0 then None
    else Some(HexPrefix(s, 0))
  }

  // ----- a chunk size, as it is written -----

  const LOWER: string := "0123456789abcdef"
  const UPPER: string := "0123456789ABCDEF"

  function Char(b: byte): char {
    b as char
  }

  /** The character stands for a hexadecimal digit. */
  predicate Denotes(b: byte, digit: nat) {
    digit < 16 && (Char(b) == LOWER[digit] || Char(b) == UPPER[digit])
  }

  predicate IsBlankChar(c: char) {
    c == ' ' || '\t' <= c <= '\r'
  }

  /** The digits of `n`, the last one for what `n` leaves when it is divided by 16; zeros in front do no harm. */
  predicate Writes(digits: seq<byte>, n: nat) {
    if digits == [] then n == 0
    else Denotes(digits[|digits| - 1], n % 16) && Writes(digits[..|digits| - 1], n / 16)
  }

  // Blanks from 0 to i, digits from i to j, and then, if anything, what is no digit.
  ghost predicate SaysSizeAt(line: seq<byte>, n: nat, i: nat, j: nat) {
    && i < j <= |line|
    && (forall k | 0 <= k < i :: IsBlankChar(Char(line[k])))
    && Writes(line[i..j], n)
    && (j < |line| ==> Char(line[j]) !in LOWER && Char(line[j]) !in UPPER)
  }

  /** The line starts with this number, perhaps behind blanks, and may go on with an extension. */
  ghost predicate SaysSize(line: seq<byte>, n: nat) {
    exists i: nat, j: nat :: SaysSizeAt(line, n, i, j)
  }

  lemma DigitIsDenoted(b: byte)
    ensures HexDigit(b) < 16 && (HexDigit(b) >= 0 ==> Denotes(b, HexDigit(b)))
    ensures HexDigit(b) < 0 ==> Char(b) !in LOWER && Char(b) !in UPPER
    ensures forall d: nat | Denotes(b, d) :: d == HexDigit(b)
    ensures IsBlank(b) <==> IsBlankChar(Char(b))
    ensures IsBlank(b) ==> HexDigit(b) < 0
  {
  }

  // The scan goes over all digits in front, and stops behind them.
  lemma {:induction false} PrefixOfDigits(digits: seq<byte>, ext: seq<byte>, value: nat)
    requires forall b | b in digits :: HexDigit(b) >= 0
    requires ext != [] ==> HexDigit(ext[0]) < 0
    ensures HexPrefix(digits + ext, value) == HexPrefix(digits, value)
  {
    if digits == [] {
      assert digits + ext == ext;
    } else {
      assert (digits + ext)[1..] == digits[1..] + ext;
      PrefixOfDigits(digits[1..], ext, value * 16 + HexDigit(digits[0]));
    }
  }

  // The last digit counts once, those before it sixteen times as much as alone.
  lemma {:induction false} LastDigit(digits: seq<byte>, value: nat)
    requires digits != [] && forall b | b in digits :: HexDigit(b) >= 0
    ensures var n := |digits| - 1;
            HexPrefix(digits, value) == HexPrefix(digits[..n], value) * 16 + HexDigit(digits[n])
  {
    var n := |digits| - 1;
    if n > 0 {
      assert digits[1..][..n - 1] == digits[..n][1..];
      LastDigit(digits[1..], value * 16 + HexDigit(digits[0]));
    } else {
      assert digits[..n] == [] && digits[1..] == [];
    }
  }

  lemma NoDigits()
    ensures HexPrefix([], 0) == 0
  {
  }

  lemma LastOfSixteen(v: nat, d: int)
    requires 0 <= d < 16
    ensures (v * 16 + d) % 16 == d && (v * 16 + d) / 16 == v
  {
  }

  lemma {:induction false} WrittenIsScanned(digits: seq<byte>, n: nat)
    requires Writes(digits, n)
    ensures (forall b | b in digits :: HexDigit(b) >= 0) && HexPrefix(digits, 0) == n
  {
    if digits != [] {
      var k := |digits| - 1;
      WrittenIsScanned(digits[..k], n / 16);
      DigitIsDenoted(digits[k]);
      assert digits == digits[..k] + [digits[k]];
      LastDigit(digits, 0);
    }
  }

  lemma {:induction false} ScannedIsWritten(digits: seq<byte>)
    requires forall b | b in digits :: HexDigit(b) >= 0
    ensures Writes(digits, HexPrefix(digits, 0))
  {
    hide Denotes, HexPrefix;
    if digits != [] {
      var k := |digits| - 1;
      ScannedIsWritten(digits[..k]);
      DigitIsDenoted(digits[k]);
      LastDigit(digits, 0);
      LastOfSixteen(HexPrefix(digits[..k], 0), HexDigit(digits[k]));
    } else {
      NoDigits();
    }
  }

  lemma {:induction false} SizeAtIsScanned(line: seq<byte>, n: nat, i: nat, j: nat)
    requires SaysSizeAt(line, n, i, j)
    ensures ScanHex(line) == Some(n)
  {
    DigitIsDenoted(line[0]);
    if i > 0 {
      var tail := line[1..];
      assert forall k | 0 <= k < i - 1 :: tail[k] == line[k + 1];
      assert tail[i - 1..j - 1] == line[i..j];
      SizeAtIsScanned(tail, n, i - 1, j - 1);
    } else {
      WrittenIsScanned(line[..j], n);
      assert line[0] == line[..j][0];
      if j < |line| {
        DigitIsDenoted(line[j]);
      }
      PrefixOfDigits(line[..j], line[j..], 0);
      assert line == line[..j] + line[j..];
    }
  }

  lemma {:induction false} DigitsInFront(s: seq<byte>) returns (j: nat)
    ensures j <= |s| && (forall k | 0 <= k < j :: HexDigit(s[k]) >= 0) && (j < |s| ==> HexDigit(s[j]) < 0)
  {
    if s == [] || HexDigit(s[0]) < 0 {
      j := 0;
    } else {
      j := DigitsInFront(s[1..]);
      j := j + 1;
    }
  }

  lemma {:induction false} ScannedIsSize(line: seq<byte>)
    requires ScanHex(line).Some?
    ensures SaysSize(line, ScanHex(line).value)
  {
    var n := ScanHex(line).value;
    DigitIsDenoted(line[0]);
    if IsBlank(line[0]) {
      var tail := line[1..];
      ScannedIsSize(tail);
      var i: nat, j: nat :| SaysSizeAt(tail, n, i, j);
      assert line[i + 1..j + 1] == tail[i..j];
      assert forall k | 0 < k < i + 1 :: line[k] == tail[k - 1];
      assert SaysSizeAt(line, n, i + 1, j + 1);
    } else {
      var j := DigitsInFront(line);
      var digits := line[..j];
      assert line == digits + line[j..] && digits != [];
      PrefixOfDigits(digits, line[j..], 0);
      ScannedIsWritten(digits);
      if j < |line| {
        DigitIsDenoted(line[j]);
      }
      assert SaysSizeAt(line, n, 0, j);
    }
  }

  /** The decoder takes a line for the number it says, in hexadecimal digits of either case, and for no other. */
  lemma {:induction false} SizeIsScanned(line: seq<byte>, n: nat)
    ensures ScanHex(line) == Some(n) <==> SaysSize(line, n)
  {
    if SaysSize(line, n) {
      var i: nat, j: nat :| SaysSizeAt(line, n, i, j);
      SizeAtIsScanned(line, n, i, j);
    } else if ScanHex(line) == Some(n) {
      ScannedIsSize(line);
    }
  }

  /** A size line as servers write it. */
  function HexText(n: nat): (text: seq<byte>) {
    var last: byte := LOWER[n % 16] as byte;
    if n < 16 then [last] else HexText(n / 16) + [last]
  }

  /** Every size can be said, and with every extension that does not start with a digit. */
  lemma {:induction false} HexTextSays(n: nat, ext: seq<byte>)
    requires ext != [] ==> Char(ext[0]) !in LOWER && Char(ext[0]) !in UPPER
    ensures SaysSize(HexText(n) + ext, n) && CR !in HexText(n) && NUL !in HexText(n)
  {
    var text := HexText(n);
    HexTextWrites(n);
    var line := text + ext;
    assert line[0..|text|] == text && line[..0] == [];
    assert SaysSizeAt(line, n, 0, |text|);
  }

  lemma {:induction false} HexTextWrites(n: nat)
    ensures HexText(n) != [] && Writes(HexText(n), n) && CR !in HexText(n) && NUL !in HexText(n)
  {
    var text := HexText(n);
    var k := |text| - 1;
    if n >= 16 {
      HexTextWrites(n / 16);
      assert text[..k] == HexText(n / 16);
    } else {
      assert text[..k] == [];
    }
  }

  // ----- what the decoder makes of a bufferful -----

  const CRLF: seq<byte> := [13, 10]

  /** The first CRLF at or after `from` and before any NUL, as strstr finds it, or the end. */
  function CrlfAt(s: seq<byte>, from: nat): (i: nat)
    requires from <= |s|
    ensures from <= i <= |s| && (i < |s| ==> i + 1 < |s| && s[i] == CR && s[i + 1] == LF)
    decreases |s| - from
  {
    if from + 1 >= |s| || s[from] == NUL then |s|
    else if s[from] == CR && s[from + 1] == LF then from
    else CrlfAt(s, from + 1)
  }

  /** A chunk header, with the line break of the chunk before it, is there as a whole. */
  predicate HasHeader(raw: seq<byte>) {
    |raw| >= 2 && raw[0] == CR && raw[1] == LF && CrlfAt(raw, 2) < |raw|
  }

  /**
   * Partial: `out` is decoded, `chunk` bytes of the current chunk are still to
   * come, `saved` waits for more. Ended: the last chunk was met, and `echo` is
   * returned behind what is decoded.
   */
  datatype Decoded =
    | Partial(out: seq<byte>, chunk: nat, saved: seq<byte>)
    | Ended(out: seq<byte>, echo: seq<byte>)
    | Bad

  function Prepend(out: seq<byte>, d: Decoded): Decoded {
    match d
    case Partial(o, c, s) => Partial(out + o, c, s)
    case Ended(o, e) => Ended(out + o, e)
    case Bad => Bad
  }

  /**
   * The last chunk's header, whose second CR became a NUL at `end`, stays where it
   * is, but as many bytes are returned as lie behind it: the header once more.
   */
  function EchoOf(raw: seq<byte>, end: nat): seq<byte>
    requires end + 2 <= |raw|
  {
    raw[end := NUL][..|raw| - end - 2]
  }

  /** One pass over a buffer that starts where a chunk header is due. */
  function Decode(raw: seq<byte>): Decoded
    decreases |raw|
  {
    if raw == [] then Partial([], 0, [])
    else if !HasHeader(raw) then Partial([], 0, raw)
    else
      var end := CrlfAt(raw, 2);
      var rest := raw[end + 2..];
      match ScanHex(raw[2..end])
      case None => Bad
      case Some(n) =>
        if n == 0 then Ended([], EchoOf(raw, end))
        else if n < |rest| then Prepend(rest[..n], Decode(rest[n..]))
        else if n > |rest| then Partial(rest, n - |rest|, [])
        // The whole rest of the buffer is this chunk's payload: the pass goes on
        // and takes that payload for the next header.
        else Decode(rest)
  }

  // ----- a well-formed body -----

  datatype Chunk = Chunk(header: seq<byte>, payload: seq<byte>)

  predicate ValidHeader(header: seq<byte>) {
    CR !in header && NUL !in header
  }

  ghost predicate ValidChunk(c: Chunk) {
    ValidHeader(c.header) && c.payload != [] && SaysSize(c.header, |c.payload|)
  }

  /** What is still to come: the rest of the current chunk, further chunks, the last chunk's header and the trailer. */
  datatype Todo = Todo(head: seq<byte>, chunks: seq<Chunk>, last: seq<byte>, trailer: seq<byte>)

  ghost predicate ValidTodo(t: Todo) {
    && (forall c | c in t.chunks :: ValidChunk(c))
    && ValidHeader(t.last) && SaysSize(t.last, 0)
  }

  function HeaderBytes(header: seq<byte>): seq<byte> {
    CRLF + header + CRLF
  }

  function ChunkBytes(c: Chunk): seq<byte> {
    HeaderBytes(c.header) + c.payload
  }

  function Encode(chunks: seq<Chunk>, last: seq<byte>, trailer: seq<byte>): seq<byte> {
    if chunks == [] then HeaderBytes(last) + trailer
    else ChunkBytes(chunks[0]) + Encode(chunks[1..], last, trailer)
  }

  function WireOf(t: Todo): seq<byte> {
    t.head + Encode(t.chunks, t.last, t.trailer)
  }

  function Payloads(chunks: seq<Chunk>): seq<byte> {
    if chunks == [] then [] else chunks[0].payload + Payloads(chunks[1..])
  }

  function PayloadOf(t: Todo): seq<byte> {
    t.head + Payloads(t.chunks)
  }

  /** The first `n` bytes end exactly where the payload of a chunk ends whose header is among them. */
  predicate EndsWithPayload(n: nat, chunks: seq<Chunk>) {
    chunks != [] && (
      var k := |ChunkBytes(chunks[0])|;
      n == k || (n > k && EndsWithPayload(n - k, chunks[1..])))
  }

  /** What is still to come after a pass over `n` bytes. */
  function TodoAfter(n: nat, t: Todo): Todo
    decreases |t.chunks|
  {
    if t.chunks == [] then t
    else
      var c, tail := t.chunks[0], t.(chunks := t.chunks[1..]);
      var h := |HeaderBytes(c.header)|;
      if n < h then t
      else if n - h < |c.payload| then tail.(head := c.payload[n - h..])
      else TodoAfter(n - h - |c.payload|, tail)
  }

  /** How many bytes a pass over `n` bytes saves: those of a header that is not there as a whole. */
  function SavedAfter(n: nat, t: Todo): nat
    decreases |t.chunks|
  {
    var h := |HeaderBytes(if t.chunks == [] then t.last else t.chunks[0].header)|;
    if n < h then n
    else if t.chunks == [] || n - h < |t.chunks[0].payload| then 0
    else SavedAfter(n - h - |t.chunks[0].payload|, t.(chunks := t.chunks[1..]))
  }

  /** The payload bytes that lie within the first `n` bytes of the encoding. */
  function PayloadWithin(n: nat, chunks: seq<Chunk>): seq<byte> {
    if chunks == [] then []
    else
      var h, all := |HeaderBytes(chunks[0].header)|, |ChunkBytes(chunks[0])|;
      if n <= h then []
      else if n <= all then chunks[0].payload[..n - h]
      else chunks[0].payload + PayloadWithin(n - all, chunks[1..])
  }

  // ----- the pass is right on every prefix of a well-formed body but those -----

  lemma {:induction false} CrlfFound(s: seq<byte>, from: nat, i: nat)
    requires from <= i && i + 1 < |s| && s[i] == CR && s[i + 1] == LF
    requires forall k | from <= k < i :: s[k] != CR && s[k] != NUL
    ensures CrlfAt(s, from) == i
    decreases i - from
  {
    if from < i {
      CrlfFound(s, from + 1, i);
    }
  }

  lemma {:induction false} NoCrlf(s: seq<byte>, from: nat)
    requires from <= |s| && forall k | from <= k < |s| - 1 :: s[k] != CR
    ensures CrlfAt(s, from) == |s|
    decreases |s| - from
  {
    if from + 1 < |s| {
      NoCrlf(s, from + 1);
    }
  }

  lemma WholeHeader(header: seq<byte>, rest: seq<byte>)
    requires ValidHeader(header)
    ensures var raw := HeaderBytes(header) + rest;
            && raw != [] && HasHeader(raw) && CrlfAt(raw, 2) == 2 + |header|
            && raw[2..2 + |header|] == header && raw[4 + |header|..] == rest
  {
    var raw := HeaderBytes(header) + rest;
    assert forall k | 2 <= k < 2 + |header| :: raw[k] == header[k - 2] && header[k - 2] in header;
    CrlfFound(raw, 2, 2 + |header|);
  }

  // One step of the pass over a buffer with a whole header in front.
  lemma {:induction false} DecodeStep(header: seq<byte>, rest: seq<byte>, n: nat)
    requires ValidHeader(header) && SaysSize(header, n)
    ensures Decode(HeaderBytes(header) + rest) ==
              if n == 0 then Ended([], EchoOf(HeaderBytes(header) + rest, 2 + |header|))
              else if n < |rest| then Prepend(rest[..n], Decode(rest[n..]))
              else if n > |rest| then Partial(rest, n - |rest|, [])
              else Decode(rest)
  {
    hide ScanHex, CrlfAt, SaysSize;
    SizeIsScanned(header, n);
    WholeHeader(header, rest);
  }

  lemma FirstChunkIsValid(t: Todo)
    requires ValidTodo(t) && t.chunks != []
    ensures ValidChunk(t.chunks[0]) && ValidTodo(t.(chunks := t.chunks[1..]))
  {
  }

  lemma PartOfHeader(header: seq<byte>, raw: seq<byte>)
    requires ValidHeader(header) && raw < HeaderBytes(header)
    ensures !HasHeader(raw)
  {
    var all := HeaderBytes(header);
    assert forall k | 0 <= k < |raw| :: raw[k] == all[k];
    if |raw| >= 2 {
      assert forall k | 2 <= k < 2 + |header| :: all[k] == header[k - 2] && header[k - 2] in header;
      NoCrlf(raw, 2);
    }
  }

  // A prefix of `a + b` is a prefix of `a`, or `a` and a prefix of `b`.
  lemma PrefixSplits(raw: seq<byte>, a: seq<byte>, b: seq<byte>)
    requires raw <= a + b
    ensures if |raw| < |a| then raw < a else raw == a + raw[|a|..] && raw[|a|..] <= b
  {
    if |raw| < |a| {
      assert raw == (a + b)[..|raw|] == a[..|raw|];
    } else {
      assert raw == (a + b)[..|raw|];
      assert raw[|a|..] == (a + b)[|a|..|raw|] == b[..|raw| - |a|];
    }
  }

  /** The pass over `raw` leaves `next` to come: what is behind `raw`, and what it saved. */
  ghost predicate LeavesOff(raw: seq<byte>, t: Todo, d: Decoded, next: Todo) {
    && d.Partial?
    && ValidTodo(next) && next.last == t.last && next.trailer == t.trailer
    && |next.head| == d.chunk && (d.saved != [] ==> d.chunk == 0)
    && |d.saved| <= |raw| && d.saved == raw[|raw| - |d.saved|..]
    && |WireOf(t)| >= |raw| && WireOf(next) == WireOf(t)[|raw| - |d.saved|..]
    && PayloadOf(t) == d.out + PayloadOf(next)
  }

  /** How many bytes of the trailer are among the first `n` bytes to come. */
  function TrailerWithin(n: int, t: Todo): int {
    n - (|WireOf(t)| - |t.trailer|)
  }

  /** What is returned behind the payload when `m` bytes of the trailer are in the buffer. */
  function Echo(t: Todo, m: int): (e: seq<byte>)
    ensures 0 <= m <= |t.trailer| ==> |e| == m
  {
    var m := if m < 0 then 0 else Min(m, |t.trailer|);
    (CRLF + t.last + [NUL, LF] + t.trailer[..m])[..m]
  }

  // The pass met the last chunk, with some of the trailer behind it.
  predicate EndsBody(raw: seq<byte>, t: Todo, d: Decoded) {
    var m := TrailerWithin(|raw|, t);
    d.Ended? && d.out == PayloadOf(t) && 0 <= m <= |t.trailer| && d.echo == Echo(t, m)
  }

  /** What a pass over `raw` does: it leaves off in the middle of the body, or ends it. */
  ghost predicate Accounted(raw: seq<byte>, t: Todo, d: Decoded) {
    var next := TodoAfter(|raw|, t);
    if d.Partial? then
      LeavesOff(raw, t, d, next) && |d.saved| == SavedAfter(|raw|, t) && (d.out == [] && d.saved != [] ==> d.saved == raw)
    else EndsBody(raw, t, d) && PayloadOf(next) == []
  }

  /**
   * On every prefix of a well-formed body that does not end exactly with a
   * chunk's payload, one pass hands out precisely the payload bytes in it and
   * leaves off so that the next one can go on.
   */
  lemma {:induction false} DecodePrefix(raw: seq<byte>, t: Todo)
    requires t.head == [] && ValidTodo(t) && raw <= WireOf(t) && !EndsWithPayload(|raw|, t.chunks)
    ensures Accounted(raw, t, Decode(raw))
    decreases |t.chunks|
  {
    hide Decode, HasHeader, ScanHex, PayloadOf, HeaderBytes, LeavesOff, Accounted;
    if t.chunks == [] {
      DecodeLast(raw, t);
    } else {
      FirstChunkIsValid(t);
      var c, tail := t.chunks[0], t.(chunks := t.chunks[1..]);
      var h := HeaderBytes(c.header);
      assert WireOf(t) == h + (c.payload + WireOf(tail));
      PrefixSplits(raw, h, c.payload + WireOf(tail));
      if |raw| < |h| {
        PartOfHeader(c.header, raw);
        StartOver(raw, t);
      } else {
        var rest := raw[|h|..];
        PrefixSplits(rest, c.payload, WireOf(tail));
        if |rest| < |c.payload| {
          DecodeWithin(raw, t, rest);
        } else {
          var behind := rest[|c.payload|..];
          assert raw == ChunkBytes(c) + behind;
          DecodePrefix(behind, tail);
          DecodeBeyond(raw, t, tail, behind);
        }
      }
    }
  }

  lemma DecodeLast(raw: seq<byte>, t: Todo)
    requires t.head == [] && t.chunks == [] && ValidTodo(t) && raw <= WireOf(t)
    ensures Accounted(raw, t, Decode(raw))
    ensures Decode(raw) == Partial([], 0, raw) || EndsBody(raw, t, Decode(raw))
  {
    var h := HeaderBytes(t.last);
    assert WireOf(t) == h + t.trailer;
    PrefixSplits(raw, h, t.trailer);
    if |raw| < |h| {
      PartOfHeader(t.last, raw);
      StartOver(raw, t);
    } else {
      LastHeader(raw, t);
    }
  }

  lemma LastHeader(raw: seq<byte>, t: Todo)
    requires t.head == [] && t.chunks == [] && ValidTodo(t)
    requires HeaderBytes(t.last) <= raw && raw[|HeaderBytes(t.last)|..] <= t.trailer
    ensures Accounted(raw, t, Decode(raw)) && EndsBody(raw, t, Decode(raw))
  {
    hide SaysSize, Decode;
    var h := HeaderBytes(t.last);
    var part := raw[|h|..];
    assert raw == h + part;
    DecodeOfLast(t.last, part);
    assert part == t.trailer[..|part|];
    assert WireOf(t) == h + t.trailer;
    assert TrailerWithin(|raw|, t) == |part|;
  }

  lemma DecodeOfLast(last: seq<byte>, part: seq<byte>)
    requires ValidHeader(last) && SaysSize(last, 0)
    ensures Decode(HeaderBytes(last) + part) == Ended([], (CRLF + last + [NUL, LF] + part)[..|part|])
  {
    hide Decode, SaysSize, HeaderBytes;
    DecodeStep(last, part, 0);
    EchoesHeader(last, part);
  }

  lemma EchoesHeader(last: seq<byte>, part: seq<byte>)
    ensures |HeaderBytes(last) + part| == |last| + 4 + |part|
    ensures EchoOf(HeaderBytes(last) + part, 2 + |last|) == (CRLF + last + [NUL, LF] + part)[..|part|]
  {
    var front := CRLF + last;
    assert HeaderBytes(last) + part == front + [CR] + ([LF] + part);
    assert (front + [CR] + ([LF] + part))[|front| := NUL] == front + [NUL] + ([LF] + part);
    assert front + [NUL] + ([LF] + part) == front + [NUL, LF] + part;
  }

  // No whole header yet: everything is saved.
  lemma StartOver(raw: seq<byte>, t: Todo)
    requires t.head == [] && ValidTodo(t) && raw <= WireOf(t) && !HasHeader(raw)
    requires |raw| < |HeaderBytes(if t.chunks == [] then t.last else t.chunks[0].header)|
    ensures Accounted(raw, t, Decode(raw)) && Decode(raw) == Partial([], 0, raw)
  {
    hide Decode, HasHeader, HeaderBytes, WireOf, PayloadOf, ValidTodo;
    NoHeader(raw);
    assert TodoAfter(|raw|, t) == t && SavedAfter(|raw|, t) == |raw|;
    assert raw[0..] == raw && WireOf(t)[0..] == WireOf(t) && [] + PayloadOf(t) == PayloadOf(t);
    assert |WireOf(t)| >= |raw|;
  }

  lemma DecodeWithin(raw: seq<byte>, t: Todo, rest: seq<byte>)
    requires t.head == [] && ValidTodo(t) && raw <= WireOf(t) && t.chunks != []
    requires raw == HeaderBytes(t.chunks[0].header) + rest && rest < t.chunks[0].payload
    ensures Accounted(raw, t, Decode(raw)) && Decode(raw).Partial? && Decode(raw).saved == []
  {
    hide Decode, ScanHex, HeaderBytes;
    FirstChunkIsValid(t);
    var c := t.chunks[0];
    var next := t.(head := c.payload[|rest|..], chunks := t.chunks[1..]);
    assert TodoAfter(|raw|, t) == next;
    DecodeStep(c.header, rest, |c.payload|);
    assert c.payload == rest + next.head;
    var e := Encode(next.chunks, t.last, t.trailer);
    Regroup(HeaderBytes(c.header), rest, next.head);
    Regroup(raw, next.head, e);
    assert WireOf(t) == raw + WireOf(next);
    Regroup(rest, next.head, Payloads(next.chunks));
    assert PayloadOf(t) == rest + PayloadOf(next);
    assert raw[|raw|..] == [];
  }

  lemma DecodeWhole(c: Chunk, behind: seq<byte>)
    requires ValidChunk(c) && behind != []
    ensures Decode(ChunkBytes(c) + behind) == Prepend(c.payload, Decode(behind))
  {
    hide Decode, ScanHex, HeaderBytes;
    var rest := c.payload + behind;
    assert ChunkBytes(c) + behind == HeaderBytes(c.header) + rest;
    DecodeStep(c.header, rest, |c.payload|);
    assert rest[..|c.payload|] == c.payload && rest[|c.payload|..] == behind;
  }

  lemma {:induction false} DecodeBeyond(raw: seq<byte>, t: Todo, tail: Todo, behind: seq<byte>)
    requires t.head == [] && ValidTodo(t) && t.chunks != []
    requires tail == t.(chunks := t.chunks[1..])
    requires raw == ChunkBytes(t.chunks[0]) + behind && behind != [] && behind <= WireOf(tail)
    requires Accounted(behind, tail, Decode(behind))
    ensures Accounted(raw, t, Decode(raw)) && Decode(raw).Bad? == false && Decode(raw).out != []
  {
    hide Decode, ScanHex, HeaderBytes, Echo, TodoAfter, SavedAfter, WireOf, PayloadOf, LeavesOff;
    FirstChunkIsValid(t);
    var c := t.chunks[0];
    DecodeWhole(c, behind);
    var d, next := Decode(behind), TodoAfter(|behind|, tail);
    BeyondFirst(t, tail, |behind|);
    if d.Partial? {
      LeavesOffBeyond(raw, t, tail, behind, d, next);
    } else {
      assert Echo(t, TrailerWithin(|raw|, t)) == Echo(tail, TrailerWithin(|behind|, tail)) by {
        SameEcho(t, tail, TrailerWithin(|raw|, t));
      }
    }
  }

  lemma BeyondFirst(t: Todo, tail: Todo, n: nat)
    requires t.head == [] && t.chunks != [] && tail == t.(chunks := t.chunks[1..])
    ensures var m := |ChunkBytes(t.chunks[0])| + n;
            TodoAfter(m, t) == TodoAfter(n, tail) && SavedAfter(m, t) == SavedAfter(n, tail)
    ensures WireOf(t) == ChunkBytes(t.chunks[0]) + WireOf(tail)
    ensures PayloadOf(t) == t.chunks[0].payload + PayloadOf(tail)
  {
    hide HeaderBytes;
  }

  lemma SameEcho(t: Todo, u: Todo, m: int)
    requires t.last == u.last && t.trailer == u.trailer
    ensures Echo(t, m) == Echo(u, m)
  {
  }

  lemma LeavesOffBeyond(raw: seq<byte>, t: Todo, tail: Todo, behind: seq<byte>, d: Decoded, next: Todo)
    requires t.chunks != [] && t.head == [] == tail.head && t.last == tail.last && t.trailer == tail.trailer
    requires WireOf(t) == ChunkBytes(t.chunks[0]) + WireOf(tail) && PayloadOf(t) == t.chunks[0].payload + PayloadOf(tail)
    requires raw == ChunkBytes(t.chunks[0]) + behind && behind <= WireOf(tail)
    requires LeavesOff(behind, tail, d, next)
    ensures LeavesOff(raw, t, Prepend(t.chunks[0].payload, d), next)
  {
    hide HeaderBytes, WireOf, PayloadOf, ValidTodo;
    var c := t.chunks[0];
    BehindLeavesOff(raw, ChunkBytes(c), behind, WireOf(tail), |d.saved|);
    Regroup(c.payload, d.out, PayloadOf(next));
  }

  lemma Regroup(a: seq<byte>, b: seq<byte>, c: seq<byte>)
    ensures a + (b + c) == a + b + c
  {
  }

  lemma BehindLeavesOff(raw: seq<byte>, front: seq<byte>, behind: seq<byte>, wire: seq<byte>, k: nat)
    requires raw == front + behind && behind <= wire && k <= |behind|
    ensures raw[|raw| - k..] == behind[|behind| - k..] && (front + wire)[|raw| - k..] == wire[|behind| - k..]
  {
  }

  // ----- and wrong on those -----

  predicate HandsOut(d: Decoded, payload: seq<byte>) {
    !d.Bad? && d.out == payload
  }

  // One step of the pass over any buffer with a whole header in front.
  lemma DecodeSize(raw: seq<byte>)
    requires HasHeader(raw)
    ensures var end := CrlfAt(raw, 2);
            var rest := raw[end + 2..];
            |rest| < |raw| &&
            match ScanHex(raw[2..end])
            case None => Decode(raw) == Bad
            case Some(n) =>
              Decode(raw) ==
                if n == 0 then Ended([], EchoOf(raw, end))
                else if n < |rest| then Prepend(rest[..n], Decode(rest[n..]))
                else if n > |rest| then Partial(rest, n - |rest|, [])
                else Decode(rest)
  {
    hide ScanHex, CrlfAt;
  }

  /** A whole header that says no size is refused. */
  lemma NoSizeIsBad(raw: seq<byte>)
    requires HasHeader(raw) && forall n: nat :: !SaysSize(raw[2..CrlfAt(raw, 2)], n)
    ensures Decode(raw) == Bad
  {
    hide CrlfAt, ScanHex;
    DecodeSize(raw);
    var line := raw[2..CrlfAt(raw, 2)];
    if ScanHex(line).Some? {
      SizeIsScanned(line, ScanHex(line).value);
    }
  }

  lemma NoHeader(raw: seq<byte>)
    requires !HasHeader(raw)
    ensures Decode(raw) == Partial([], 0, raw)
  {
    hide HasHeader;
  }

  lemma {:induction false} DecodeShrinks(raw: seq<byte>)
    requires raw != [] && !Decode(raw).Bad?
    ensures |Decode(raw).out| < |raw|
    decreases |raw|
  {
    hide ScanHex, CrlfAt, Decode;
    if HasHeader(raw) {
      DecodeSize(raw);
      var end := CrlfAt(raw, 2);
      var rest, n := raw[end + 2..], ScanHex(raw[2..end]);
      if 0 < n.value < |rest| {
        DecodeShrinks(rest[n.value..]);
      } else if 0 < n.value == |rest| {
        DecodeShrinks(rest);
      }
    } else {
      NoHeader(raw);
    }
  }

  /**
   * One pass hands out precisely the payload bytes in the buffer if and only if
   * the buffer does not end exactly with a chunk's payload.
   */
  lemma {:induction false} PassIsExact(raw: seq<byte>, t: Todo)
    requires t.head == [] && ValidTodo(t) && raw <= WireOf(t)
    ensures HandsOut(Decode(raw), PayloadWithin(|raw|, t.chunks)) <==> !EndsWithPayload(|raw|, t.chunks)
    decreases |t.chunks|
  {
    hide Decode, HasHeader, ScanHex, HeaderBytes;
    if t.chunks == [] {
      DecodeLast(raw, t);
    } else {
      FirstChunkIsValid(t);
      var c, tail := t.chunks[0], t.(chunks := t.chunks[1..]);
      var h := HeaderBytes(c.header);
      assert WireOf(t) == h + (c.payload + WireOf(tail));
      PrefixSplits(raw, h, c.payload + WireOf(tail));
      if |raw| < |h| {
        PartOfHeader(c.header, raw);
        StartOver(raw, t);
      } else {
        var rest := raw[|h|..];
        PrefixSplits(rest, c.payload, WireOf(tail));
        DecodeStep(c.header, rest, |c.payload|);
        if |rest| < |c.payload| {
          assert rest == c.payload[..|raw| - |h|];
        } else {
          ExactOrNot(raw, t, rest);
          if rest[|c.payload|..] != [] {
            PassIsExact(rest[|c.payload|..], tail);
          }
        }
      }
    }
  }

  // The header and the whole payload of the first chunk are in the buffer.
  lemma {:induction false} ExactOrNot(raw: seq<byte>, t: Todo, rest: seq<byte>)
    requires t.head == [] && t.chunks != [] && ValidChunk(t.chunks[0])
    requires raw == HeaderBytes(t.chunks[0].header) + rest && t.chunks[0].payload <= rest
    ensures var c := t.chunks[0];
            var behind := rest[|c.payload|..];
            if behind == [] then !HandsOut(Decode(raw), PayloadWithin(|raw|, t.chunks)) && EndsWithPayload(|raw|, t.chunks)
            else
              && (EndsWithPayload(|raw|, t.chunks) <==> EndsWithPayload(|behind|, t.chunks[1..]))
              && (HandsOut(Decode(raw), PayloadWithin(|raw|, t.chunks)) <==>
                  HandsOut(Decode(behind), PayloadWithin(|behind|, t.chunks[1..])))
  {
    hide Decode, ScanHex, HeaderBytes;
    var c := t.chunks[0];
    var behind := rest[|c.payload|..];
    DecodeStep(c.header, rest, |c.payload|);
    assert rest == c.payload + behind;
    if behind == [] {
      assert rest == c.payload && c.payload[..|c.payload|] == c.payload;
      if !Decode(rest).Bad? {
        DecodeShrinks(rest);
      }
    } else {
      var within := PayloadWithin(|behind|, t.chunks[1..]);
      assert PayloadWithin(|raw|, t.chunks) == c.payload + within;
      if !Decode(behind).Bad? {
        assert c.payload + Decode(behind).out == c.payload + within <==> Decode(behind).out == within by {
          CancelPrefix(c.payload, Decode(behind).out, within);
        }
      }
    }
  }

  lemma CancelPrefix(a: seq<byte>, x: seq<byte>, y: seq<byte>)
    ensures a + x == a + y <==> x == y
  {
    assert (a + x)[|a|..] == x && (a + y)[|a|..] == y;
  }

  /** The five bytes of a chunk that fills the buffer are taken for the start of the next header. */
  lemma AlignedPayloadIsLost()
    ensures Decode([CR, LF, 53, CR, LF] + [104, 101, 108, 108, 111]) == Partial([], 0, [104, 101, 108, 108, 111])
  {
    var payload: seq<byte> := [104, 101, 108, 108, 111];
    assert HexPrefix([53], 0) == HexPrefix([], 5) == 5;
    assert HeaderBytes([53]) == [CR, LF, 53, CR, LF];
    assert SaysSizeAt([53], 5, 0, 1) by {
      assert [53][0..1] == [53] && [53][..0] == [];
    }
    DecodeStep([53], payload, 5);
  }

  /**
   * A pass that goes right comes out empty, with nothing saved, exactly if its
   * buffer is one whole header of a chunk: the call then returns 0, as it does at
   * the end of the stream.
   */
  lemma {:induction false} EmptyPass(raw: seq<byte>, t: Todo)
    requires t.head == [] && ValidTodo(t) && raw <= WireOf(t) && raw != [] && !EndsWithPayload(|raw|, t.chunks)
    ensures Decode(raw).Partial? && Decode(raw).out == [] && Decode(raw).saved == [] <==>
            t.chunks != [] && raw == HeaderBytes(t.chunks[0].header)
  {
    hide Decode, HasHeader, ScanHex, PayloadOf, HeaderBytes, Accounted;
    if t.chunks == [] {
      DecodeLast(raw, t);
    } else {
      FirstChunkIsValid(t);
      var c, tail := t.chunks[0], t.(chunks := t.chunks[1..]);
      var h := HeaderBytes(c.header);
      assert WireOf(t) == h + (c.payload + WireOf(tail));
      PrefixSplits(raw, h, c.payload + WireOf(tail));
      if |raw| < |h| {
        PartOfHeader(c.header, raw);
        StartOver(raw, t);
      } else {
        var rest := raw[|h|..];
        PrefixSplits(rest, c.payload, WireOf(tail));
        DecodeStep(c.header, rest, |c.payload|);
        if |rest| > |c.payload| {
          var behind := rest[|c.payload|..];
          assert raw == ChunkBytes(c) + behind;
          DecodePrefix(behind, tail);
          DecodeBeyond(raw, t, tail, behind);
        }
      }
    }
  }

  // ----- a run of passes -----

  /** Where decoding stands: how much is saved, what is still to come, and whether a pass has gone wrong. */
  datatype Spot = Spot(saved: nat, todo: Todo, wrong: bool)

  /** Bytes came off the wire, or there was a pass over the saved bytes alone. */
  datatype Event = Came(n: nat) | Again

  function BytesOf(e: Event): nat {
    if e.Came? then e.n else 0
  }

  /** A pass over `n` bytes. */
  function Passed(s: Spot, n: nat): Spot {
    if EndsWithPayload(n, s.todo.chunks) then s.(wrong := true)
    else Spot(SavedAfter(n, s.todo), TodoAfter(n, s.todo), false)
  }

  /** Within a chunk bytes are handed on as they are; otherwise there is a pass over what is saved and what came. */
  function Next(s: Spot, e: Event): Spot {
    if s.wrong then s
    else if s.todo.head != [] then s.(todo := s.todo.(head := s.todo.head[Min(BytesOf(e), |s.todo.head|)..]))
    else Passed(s, s.saved + BytesOf(e))
  }

  function Run(s: Spot, events: seq<Event>): Spot {
    if events == [] then s else Next(Run(s, events[..|events| - 1]), events[|events| - 1])
  }

  /** How many bytes came with each of the events that brought some. */
  function Reads(events: seq<Event>): seq<nat> {
    if events == [] then []
    else
      var e := events[|events| - 1];
      Reads(events[..|events| - 1]) + (if e.Came? then [e.n] else [])
  }

  /**
   * A read brings less than `size` bytes, and nothing beyond the current chunk. A pass
   * has at most `size` bytes, and one without new bytes only if there is no room for
   * any, or no need.
   */
  predicate CanHappen(s: Spot, e: Event, size: nat) {
    !s.wrong ==>
      match e
      case Came(n) => 0 < n < size && if s.todo.head == [] then s.saved + n <= size else n <= |s.todo.head|
      case Again => s.todo.head == [] && 0 < s.saved && (s.saved == size || s.todo.chunks == [])
  }

  predicate Possible(s: Spot, events: seq<Event>, size: nat) {
    events == [] ||
    (var n := |events| - 1;
     Possible(s, events[..n], size) && CanHappen(Run(s, events[..n]), events[n], size))
  }

  /** A pass at this event ends exactly with a chunk's payload. */
  ghost predicate GoesWrongAt(s: Spot, events: seq<Event>, i: nat)
    requires i < |events|
  {
    var before := Run(s, events[..i]);
    before.todo.head == [] && EndsWithPayload(before.saved + BytesOf(events[i]), before.todo.chunks)
  }

  /** A run goes wrong exactly if one of its passes ends exactly with a chunk's payload. */
  lemma {:induction false} WrongMeansPassWentWrong(s: Spot, events: seq<Event>)
    requires !s.wrong
    ensures Run(s, events).wrong <==> exists i :: 0 <= i < |events| && GoesWrongAt(s, events, i)
  {
    hide EndsWithPayload;
    if events != [] {
      var n := |events| - 1;
      var init := events[..n];
      WrongMeansPassWentWrong(s, init);
      forall i | 0 <= i < n
        ensures GoesWrongAt(s, events, i) <==> GoesWrongAt(s, init, i)
      {
        assert events[..i] == init[..i];
      }
      assert !Run(s, init).wrong ==> (Run(s, events).wrong <==> GoesWrongAt(s, events, n));
    }
  }

  /** Some chunk fits the buffer, header and all, and so does the header of every chunk before it. */
  predicate SomeChunkFits(chunks: seq<Chunk>, size: nat) {
    chunks != [] &&
    (|ChunkBytes(chunks[0])| <= size || (|HeaderBytes(chunks[0].header)| <= size && SomeChunkFits(chunks[1..], size)))
  }

  lemma PassOverLong(n: nat, t: Todo, size: nat)
    requires !SomeChunkFits(t.chunks, size) && (n <= size || t.chunks == [])
    ensures !EndsWithPayload(n, t.chunks) && !SomeChunkFits(TodoAfter(n, t).chunks, size)
  {
    hide HeaderBytes;
  }

  /** If no chunk fits that can be reached, no run goes wrong. */
  lemma {:induction false} NoneFitsGoesRight(s: Spot, events: seq<Event>, size: nat)
    requires !s.wrong && Possible(s, events, size) && !SomeChunkFits(s.todo.chunks, size)
    ensures !Run(s, events).wrong && !SomeChunkFits(Run(s, events).todo.chunks, size)
  {
    hide SomeChunkFits, EndsWithPayload, TodoAfter, SavedAfter;
    if events != [] {
      var n := |events| - 1;
      NoneFitsGoesRight(s, events[..n], size);
      var before := Run(s, events[..n]);
      var m := before.saved + BytesOf(events[n]);
      if before.todo.head == [] {
        PassOverLong(m, before.todo, size);
      }
    }
  }

  predicate AllLonger(chunks: seq<Chunk>, size: nat) {
    forall c | c in chunks :: |ChunkBytes(c)| > size
  }

  lemma {:induction false} LongerDoNotFit(chunks: seq<Chunk>, size: nat)
    requires AllLonger(chunks, size)
    ensures !SomeChunkFits(chunks, size)
  {
    if chunks != [] {
      LongerDoNotFit(chunks[1..], size);
    }
  }

  /** With chunks longer than the buffer, header and all, no run can go wrong. */
  lemma {:induction false} LongChunksGoRight(s: Spot, events: seq<Event>, size: nat)
    requires !s.wrong && Possible(s, events, size) && AllLonger(s.todo.chunks, size)
    ensures !Run(s, events).wrong
  {
    LongerDoNotFit(s.todo.chunks, size);
    NoneFitsGoesRight(s, events, size);
  }

  /** What was saved is not a whole header, and there is nothing saved within a chunk: so it is after every pass. */
  predicate Settled(s: Spot) {
    !s.wrong &&
    if s.todo.head != [] then s.saved == 0
    else s.todo.chunks != [] ==> s.saved < |HeaderBytes(s.todo.chunks[0].header)|
  }

  lemma {:induction false} PassedIsSettled(s: Spot, n: nat)
    requires !s.wrong && s.todo.head == [] && !EndsWithPayload(n, s.todo.chunks)
    ensures Settled(Passed(s, n))
    decreases |s.todo.chunks|
  {
    hide HeaderBytes;
    if s.todo.chunks != [] {
      var c := s.todo.chunks[0];
      var k := |ChunkBytes(c)|;
      if n > k {
        PassedIsSettled(s.(todo := s.todo.(chunks := s.todo.chunks[1..])), n - k);
      }
    }
  }

  // Some run from here goes wrong.
  ghost predicate MayGoWrong(s: Spot, size: nat) {
    exists events :: Possible(s, events, size) && Run(s, events).wrong
  }

  lemma GoesWrongLater(s: Spot, e: Event, size: nat)
    requires CanHappen(s, e, size) && MayGoWrong(Next(s, e), size)
    ensures MayGoWrong(s, size)
  {
    hide Next, CanHappen;
    var later :| Possible(Next(s, e), later, size) && Run(Next(s, e), later).wrong;
    assert [e][..0] == [];
    assert Run(s, []) == s && Possible(s, [], size);
    assert Possible(s, [e], size) && Run(s, [e]) == Next(s, e);
    RunsJoin(size, s, [e], later);
    assert Possible(s, [e] + later, size);
  }

  // A pass over `n` bytes comes about, if need be after one over a single byte.
  lemma PassComesAbout(s: Spot, n: nat, size: nat)
    requires !s.wrong && s.todo.head == [] && s.todo.chunks != []
    requires s.saved < |HeaderBytes(s.todo.chunks[0].header)| <= n <= size
    requires MayGoWrong(Passed(s, n), size) && MayGoWrong(Passed(s.(saved := 1), n), size)
    ensures MayGoWrong(s, size)
  {
    hide MayGoWrong;
    if n - s.saved < size {
      GoesWrongLater(s, Came(n - s.saved), size);
    } else {
      var one := s.(saved := 1);
      assert Next(s, Came(1)) == one by {
        assert [1] == [1];
      }
      GoesWrongLater(one, Came(n - 1), size);
      GoesWrongLater(s, Came(1), size);
    }
  }

  lemma WrongIsWrong(s: Spot, size: nat)
    requires s.wrong
    ensures MayGoWrong(s, size)
  {
    assert Possible(s, [], size) && Run(s, []) == s;
  }

  lemma {:induction false} FittingGoesWrong(s: Spot, size: nat)
    requires Settled(s) && SomeChunkFits(s.todo.chunks, size)
    ensures MayGoWrong(s, size)
    decreases |s.todo.chunks|, |s.todo.head|
  {
    hide MayGoWrong, HeaderBytes;
    var t := s.todo;
    var c := t.chunks[0];
    var h, k := |HeaderBytes(c.header)|, |ChunkBytes(c)|;
    assert 4 <= h <= size by {
      HeaderHasFour(c.header);
    }
    if t.head != [] {
      var n := Min(|t.head|, size - 1);
      var next := s.(todo := t.(head := t.head[n..]));
      assert Next(s, Came(n)) == next;
      FittingGoesWrong(next, size);
      GoesWrongLater(s, Came(n), size);
    } else if k <= size {
      WrongIsWrong(s.(wrong := true), size);
      WrongIsWrong(s.(saved := 1, wrong := true), size);
      PassComesAbout(s, k, size);
    } else {
      var next := Spot(0, t.(head := c.payload[size - h..], chunks := t.chunks[1..]), false);
      assert Passed(s, size) == next && Passed(s.(saved := 1), size) == next;
      FittingGoesWrong(next, size);
      PassComesAbout(s, size, size);
    }
  }

  lemma HeaderHasFour(header: seq<byte>)
    ensures |HeaderBytes(header)| >= 4
  {
  }

  /**
   * From a spot as every pass leaves it, some run goes wrong if and only if some
   * chunk fits the buffer, header and all, and no header before it is too long.
   */
  lemma {:induction false} GoesWrongIfSomeChunkFits(s: Spot, size: nat)
    requires Settled(s)
    ensures MayGoWrong(s, size) <==> SomeChunkFits(s.todo.chunks, size)
  {
    if SomeChunkFits(s.todo.chunks, size) {
      FittingGoesWrong(s, size);
    } else {
      forall events | Possible(s, events, size)
        ensures !Run(s, events).wrong
      {
        NoneFitsGoesRight(s, events, size);
      }
    }
  }

  /** The state went on from one spot to another by events that were logged, and all bytes read are in the log. */
  ghost predicate Went(size: nat, s: Spot, e: seq<Event>, r: seq<nat>, s': Spot, e': seq<Event>, r': seq<nat>) {
    e <= e' && r <= r' &&
    var news := e'[|e|..];
    s' == Run(s, news) && Possible(s, news, size) && Reads(news) == r'[|r|..]
  }

  lemma WentNowhere(size: nat, s: Spot, e: seq<Event>, r: seq<nat>)
    ensures Went(size, s, e, r, s, e, r)
  {
  }

  lemma WentOne(size: nat, s: Spot, e: seq<Event>, r: seq<nat>, x: Event)
    requires CanHappen(s, x, size)
    ensures Went(size, s, e, r, Next(s, x), e + [x], if x.Came? then r + [x.n] else r)
  {
    hide Next, CanHappen;
    var r' := if x.Came? then r + [x.n] else r;
    assert (e + [x])[|e|..] == [x] && [x][..0] == [];
    assert Run(s, []) == s && Possible(s, [], size) && Reads([]) == [];
    assert r'[|r|..] == if x.Came? then [x.n] else [];
  }

  lemma {:induction false} RunsJoin(size: nat, s: Spot, a: seq<Event>, b: seq<Event>)
    requires Possible(s, a, size) && Possible(Run(s, a), b, size)
    ensures Run(s, a + b) == Run(Run(s, a), b) && Possible(s, a + b, size) && Reads(a + b) == Reads(a) + Reads(b)
    decreases |b|
  {
    hide Next, CanHappen;
    if b == [] {
      assert a + b == a;
    } else {
      var n := |b| - 1;
      RunsJoin(size, s, a, b[..n]);
      assert (a + b)[..|a + b| - 1] == a + b[..n] && (a + b)[|a + b| - 1] == b[n];
    }
  }

  lemma {:induction false} WrongForEver(s: Spot, events: seq<Event>)
    requires s.wrong
    ensures Run(s, events) == s
  {
    if events != [] {
      WrongForEver(s, events[..|events| - 1]);
    }
  }

  lemma WrongStays(size: nat, s: Spot, e: seq<Event>, r: seq<nat>, s': Spot, e': seq<Event>, r': seq<nat>)
    requires Went(size, s, e, r, s', e', r')
    ensures s.wrong ==> s' == s
  {
    if s.wrong {
      WrongForEver(s, e'[|e|..]);
    }
  }

  lemma WentOn(size: nat, s: Spot, e: seq<Event>, r: seq<nat>, s1: Spot, e1: seq<Event>, r1: seq<nat>,
               s2: Spot, e2: seq<Event>, r2: seq<nat>)
    requires Went(size, s, e, r, s1, e1, r1) && Went(size, s1, e1, r1, s2, e2, r2)
    ensures Went(size, s, e, r, s2, e2, r2) && |e| <= |e1| <= |e2|
  {
    hide Run, Possible, Reads;
    var a, b := e1[|e|..], e2[|e1|..];
    RunsJoin(size, s, a, b);
    assert e2[|e|..] == a + b && r2[|r|..] == r1[|r|..] + r2[|r1|..];
  }

  // ----- the decoder -----

  /** Finished: the pass is over. Waiting: it saved what it could not decode. LastChunk: it met the last chunk. */
  datatype Verdict = Finished | Waiting | LastChunk | Invalid

  class ChunkedReader {
    const stream: Stream
    var connected: bool
    var read_bytes: nat
    var chunk_size: int
    var content_length: nat
    var chunked_transfer: bool
    var eof: bool
    var read_ref_cnt: int
    var extra: Option<seq<byte>>
    // Where decoding stands, and what happened so far.
    ghost var spot: Spot
    ghost var events: seq<Event>

    constructor (stream: Stream)
      ensures this.stream == stream && connected && !eof && !spot.wrong && events == []
      ensures read_bytes == 0 && chunk_size == 0 && content_length == 0
      ensures !chunked_transfer && read_ref_cnt == 0 && extra == None
    {
      this.stream, connected, eof := stream, true, false;
      read_bytes, chunk_size, content_length, chunked_transfer, read_ref_cnt, extra := 0, 0, 0, false, 0, None;
      spot, events := Spot(0, Todo([], [], [], []), false), [];
    }

    // Bytes were only saved where a header is due. A response has a length or is chunked, not both.
    predicate Valid()
      reads this
    {
      && chunk_size >= 0 && read_ref_cnt >= 0
      && (extra.Some? ==> chunk_size == 0 && extra.value != [])
      && (eof ==> chunk_size == 0 && extra.None?)
      && (if chunked_transfer then content_length == 0 else chunk_size == 0 && extra == None && !eof)
      && (content_length > 0 ==> read_bytes <= content_length)
    }

    function Saved(): seq<byte>
      reads this
    {
      if extra.Some? then extra.value else []
    }

    ghost function Undecoded(): seq<byte>
      reads this, stream
    {
      Saved() + stream.rest
    }

    /**
     * What was saved and what is on the wire is what is still to come, or as much
     * of it as the server sends; saved bytes are lost when the stream ends.
     */
    ghost predicate Framed()
      reads this, stream
    {
      ValidTodo(spot.todo) && |spot.todo.head| == chunk_size && Undecoded() <= WireOf(spot.todo) &&
      (spot.saved == |Saved()| || Undecoded() == [])
    }

    /** The first CRLF from `from` on, in a buffer that ends with a NUL at `end`; -1 if there is none. */
    method FindCrlf(ptr: array<byte>, from: nat, end: nat, ghost start: nat) returns (pos: int)
      requires start <= from <= end < ptr.Length && ptr[end] == NUL
      ensures var raw := ptr[start..end];
              pos == if CrlfAt(raw, from - start) < |raw| then start + CrlfAt(raw, from - start) else -1
    {
      ghost var raw := ptr[start..end];
      pos := from;
      while ptr[pos] != NUL
        invariant from <= pos <= end
        invariant CrlfAt(raw, from - start) == CrlfAt(raw, pos - start)
        decreases end - pos
      {
        assert pos < end ==> raw[pos - start] == ptr[pos];
        assert pos + 1 < end ==> raw[pos + 1 - start] == ptr[pos + 1];
        if ptr[pos] == CR && ptr[pos + 1] == LF {
          return pos;
        }
        pos := pos + 1;
      }
      assert pos < end ==> raw[pos - start] == ptr[pos];
      pos := -1;
    }

    // Moves n bytes towards the front of the buffer; the two places may overlap.
    method MoveDown(ptr: array<byte>, to: nat, from: nat, n: nat)
      requires to <= from && from + n <= ptr.Length
      modifies ptr
      ensures ptr[..to] == old(ptr[..to]) && ptr[to..to + n] == old(ptr[from..from + n])
    {
      forall i | 0 <= i < n {
        ptr[to + i] := ptr[from + i];
      }
    }

    // What is behind a header of `len` bytes takes its place, with the NUL at the end.
    method DropHeader(ptr: array<byte>, stpos: nat, sret: nat, len: nat)
      requires stpos + len <= sret < ptr.Length && ptr[sret] == NUL
      modifies ptr
      ensures ptr[..stpos] == old(ptr[..stpos])
      ensures ptr[stpos..sret - len] == old(ptr[stpos + len..sret]) && ptr[sret - len] == NUL
    {
      ghost var rest := ptr[stpos + len..sret];
      assert ptr[stpos + len..sret + 1] == rest + [NUL];
      MoveDown(ptr, stpos, stpos + len, sret - (stpos + len) + 1);
      assert ptr[stpos..sret - len + 1] == rest + [NUL];
      assert ptr[stpos..sret - len] == ptr[stpos..sret - len + 1][..sret - len - stpos];
      assert ptr[sret - len] == ptr[stpos..sret - len + 1][sret - len - stpos];
    }

    /**
     * Looks for a whole header at `stpos`, and takes it out when it announces
     * payload. `len` is the header's length, with both line breaks.
     */
    method TakeHeader(ptr: array<byte>, stpos: nat, sret: nat) returns (size: Option<nat>, found: bool, len: nat)
      requires stpos < sret < ptr.Length && ptr[sret] == NUL
      modifies ptr
      ensures ptr[..stpos] == old(ptr[..stpos])
      ensures var raw := old(ptr[stpos..sret]);
              && found == HasHeader(raw)
              && (!found ==> ptr[stpos..sret] == raw)
              && (found ==>
                    && len == CrlfAt(raw, 2) + 2 <= |raw| && size == ScanHex(raw[2..CrlfAt(raw, 2)])
                    && (size.Some? && size.value > 0 ==> ptr[stpos..sret - len] == raw[len..] && ptr[sret - len] == NUL)
                    && (size == Some(0) ==> ptr[stpos..sret] == raw[CrlfAt(raw, 2) := NUL]))
    {
      hide ScanHex, CrlfAt;
      ghost var raw := ptr[stpos..sret];
      assert raw[0] == ptr[stpos] && (|raw| > 1 ==> raw[1] == ptr[stpos + 1]);
      var crlfpos := -1;
      if ptr[stpos] == CR && ptr[stpos + 1] == LF {
        crlfpos := FindCrlf(ptr, stpos + 2, sret, stpos);
      }
      if crlfpos < 0 {
        return None, false, 0;
      }
      ghost var end := CrlfAt(raw, 2);
      assert crlfpos == stpos + end < sret;
      var header := ptr[stpos + 2..crlfpos];
      SliceOfSlice(ptr, stpos, sret, 2, end);
      ptr[crlfpos] := NUL;
      assert ptr[stpos..sret] == raw[end := NUL];
      len := crlfpos - stpos + 2;
      size := ScanHex(header);
      if size.Some? && size.value > 0 {
        SliceOfSlice(ptr, stpos, sret, len, sret - stpos);
        assert raw[end := NUL][len..] == raw[len..];
        DropHeader(ptr, stpos, sret, len);
      }
      return size, true, len;
    }

    /** One turn of the decoding loop: `out` is decoded, `raw` is not yet. */
    method PassStep(ptr: array<byte>, stpos: nat, sret: nat, ghost out: seq<byte>, ghost raw: seq<byte>)
      returns (stop: bool, verdict: Verdict, stpos': nat, sret': nat, ghost out': seq<byte>, ghost raw': seq<byte>)
      requires chunk_size == 0 && extra == None && stpos < sret < ptr.Length && ptr[sret] == NUL
      requires ptr[..stpos] == out && ptr[stpos..sret] == raw
      modifies this`chunk_size, this`extra, ptr
      ensures chunk_size >= 0 && stpos' <= sret' <= sret && (stop || ptr[sret'] == NUL)
      ensures extra.Some? ==> chunk_size == 0

      ensures var whole := Prepend(out, Decode(raw));
              if stop then Shows(whole, verdict, ptr[..sret'], chunk_size, extra)
              else if chunk_size > 0 then whole == Partial(out', chunk_size, []) && ptr[..sret'] == out' && extra == None
              else whole == Prepend(out', Decode(raw')) && extra == None
                   && ptr[..stpos'] == out' && ptr[stpos'..sret'] == raw' && |raw'| < |raw|
    {
      hide ScanHex, CrlfAt, HasHeader, Decode, Prepend;
      stop, verdict, stpos', sret', out', raw' := true, Finished, stpos, sret, out, raw;
      var size, found, len := TakeHeader(ptr, stpos, sret);
      if !found {
        UnfoldNothing(raw, out);
        extra := Some(ptr[stpos..sret]);
        verdict, sret' := Waiting, stpos;
        return;
      }
      if size.None? {
        UnfoldBad(raw, out);
        verdict := Invalid;
        return;
      }
      chunk_size := size.value;
      sret' := sret - len;
      var current := sret' - stpos;
      UnfoldSize(raw, out, len, chunk_size);
      if chunk_size == 0 {
        assert ptr[..sret'] == out + EchoOf(raw, len - 2) by {
          SlicesJoin(ptr, stpos, sret', 0);
          SliceOfSlice(ptr, stpos, sret, 0, current);
        }
        verdict := LastChunk;
        return;
      }
      stop := false;
      ghost var rest := raw[len..];
      assert ptr[stpos..sret'] == rest;
      SlicesJoin(ptr, stpos, sret', if chunk_size < current then chunk_size else current);
      if chunk_size < current {
        out', raw' := out + rest[..chunk_size], rest[chunk_size..];
        stpos' := stpos + chunk_size;
        chunk_size := 0;
      } else {
        out', raw' := if chunk_size > current then out + rest else out, rest;
        chunk_size := chunk_size - current;
      }
    }

    /**
     * The in-place pass over the first `filled` bytes of `ptr`: what it decodes is
     * moved to the front, headers drop out, and an unfinished header is saved.
     */
    method DecodeInPlace(ptr: array<byte>, filled: nat) returns (verdict: Verdict, sret: nat)
      requires chunk_size == 0 && extra.None?
      requires filled < ptr.Length && ptr[filled] == NUL
      modifies this`chunk_size, this`extra, ptr
      ensures chunk_size >= 0 && sret <= filled && (extra.Some? ==> chunk_size == 0)
      ensures Shows(old(Decode(ptr[..filled])), verdict, ptr[..sret], chunk_size, extra)
    {
      hide Decode, Prepend, Shows;
      ghost var whole := Decode(ptr[..filled]);
      sret := filled;
      var stpos := 0;
      PrependNothing(whole);
      ghost var out, raw := ptr[..stpos], ptr[..filled];
      while chunk_size == 0
        invariant 0 <= stpos <= sret <= filled && ptr[sret] == NUL && extra == None && chunk_size >= 0
        invariant chunk_size == 0 ==> ptr[..stpos] == out && ptr[stpos..sret] == raw && whole == Prepend(out, Decode(raw))
        invariant chunk_size > 0 ==> ptr[..sret] == out && whole == Partial(out, chunk_size, [])
        decreases if chunk_size == 0 then 1 + |raw| else 0
      {
        var current := sret - stpos;
        if current == 0 {
          UnfoldNothing(raw, out);
          break;
        }
        var stop;
        stop, verdict, stpos, sret, out, raw := PassStep(ptr, stpos, sret, out, raw);
        if stop {
          return verdict, sret;
        }
      }
      FinishedShows(out, chunk_size);
      return Finished, sret;
    }

    // Takes the saved bytes, and says how much may be read behind them.
    method ReadSize(ptr: array<byte>, size: nat) returns (done: bool, ret: int, begin: nat, read_size: nat)
      requires Valid() && ptr.Length > size
      modifies this`extra, ptr
      ensures done ==> extra == old(extra)
      ensures |old(Saved())| > size ==> done && ret == GFTP_EFATAL
      ensures done ==> (ret == GFTP_EFATAL && |Saved()| > size) || (ret == 0 && 0 < content_length == read_bytes && extra == None)
      ensures !done ==> extra == None && begin == |old(Saved())| && begin + read_size <= size && ptr[..begin] == old(Saved())
      ensures !done && read_size == 0 ==> begin == size || (begin > 0 && SaysEnd(old(Saved())))
      ensures !done && |old(Saved())| > 5 && old(Saved())[..5] == [13, 10, 48, 13, 10] ==> read_size == 0
      ensures !done && chunk_size > 0 ==> read_size <= chunk_size
      ensures !done && content_length > 0 ==> read_bytes + read_size <= content_length
    {
      begin, read_size := 0, size;
      if extra.Some? {
        begin := |extra.value|;
        if begin > size {
          return true, GFTP_EFATAL, 0, 0;
        }
        var saved := extra.value;
        forall i | 0 <= i < begin {
          ptr[i] := saved[i];
        }
        // Check for the end of the body.
        read_size := if SaysEnd(saved) then 0 else size - begin;
        extra := None;
        assert ptr[..begin] == saved;
      } else {
        if content_length > 0 {
          if content_length == read_bytes {
            return true, 0, 0, 0;
          }
          if read_size + read_bytes > content_length {
            read_size := content_length - read_bytes;
          }
        } else if chunked_transfer && chunk_size > 0 && chunk_size < read_size {
          read_size := chunk_size;
        }
      }
      done, ret := false, 0;
    }

    /**
     * The reading half of one call: saved bytes first, then from the stream.
     * `done` says that the call ends here.
     */
    method Fill(ptr: array<byte>, size: nat) returns (done: bool, ret: int, sret: nat)
      requires Valid() && ptr.Length > size
      modifies this`extra, this`chunk_size, this`read_bytes, stream, ptr
      ensures Valid() && chunk_size <= old(chunk_size) && sret <= size
      ensures !done ==>
                && chunk_size == old(chunk_size) && extra == None && ptr[sret] == NUL
                && (chunk_size > 0 ==> size == sret == 0)
                && ptr[..sret] + stream.rest == old(Undecoded())
                && (eof ==> sret == 0)
      ensures done ==> ret <= size && (ret > 0 ==> ret < size) && (ret > 0 ==> extra == None && old(extra) == None && !eof)
      ensures done && ret > 0 ==>
                && ret <= |old(stream.rest)| && ptr[..ret] == old(stream.rest)[..ret] && stream.rest == old(stream.rest)[ret..]
                && chunk_size == old(chunk_size) - ret
      ensures done && ret == 0 ==>
                chunk_size == old(chunk_size) &&
                (Undecoded() == [] || (extra == old(extra) && stream.rest == old(stream.rest)))
      ensures done && ret == 0 && old(extra) == None ==> stream.rest == old(stream.rest) && extra == None
      ensures !done && sret == 0 ==> (eof || size == 0) && old(extra) == None
      // An end of the stream, and not only a call that left no room to read into.
      ensures done && ret == 0 && content_length == 0 ==> size <= 1 || stream.rest == []
      ensures eof ==> !done
      // What was read, and when nothing was: saved bytes fill the buffer, or end the body.
      ensures done ==> stream.portions == PortionsAfter(old(stream.portions), ret)
      ensures done && ret <= 0 ==> stream.portions == old(stream.portions)
      ensures !done ==> |old(Saved())| <= sret && (sret == |old(Saved())| || sret - |old(Saved())| < size)
      ensures !done ==> stream.portions == PortionsAfter(old(stream.portions), sret - |old(Saved())|)
      ensures !done && sret == |old(Saved())| > 0 ==> sret == size || SaysEnd(old(Saved()))
      ensures read_bytes == old(read_bytes) + if done && ret <= 0 then 0 else if done then ret else sret - |old(Saved())|
      ensures done && ret == 0 ==> size <= 1 || stream.rest == [] || 0 < content_length == read_bytes
      // Nothing is waited for when the end of the body was saved.
      ensures !done && |old(Saved())| > 5 && old(Saved())[..5] == [13, 10, 48, 13, 10] ==> sret == |old(Saved())|
      ensures stream.errors == old(stream.errors) + if done && ret == -1 then 1 else 0
      ensures done && ret < 0 && ret != -1 <==> |old(Saved())| > size
      ensures done && ret < 0 && ret != -1 ==> ret == GFTP_EFATAL && extra == old(extra)
    {
      hide SaysEnd;
      ghost var saved, rest := Saved(), stream.rest;
      var begin, read_size;
      done, ret, begin, read_size := ReadSize(ptr, size);
      if done {
        return true, ret, 0;
      }
      done, ret, sret := ReadBehind(ptr, size, begin, read_size);
      if !done {
        Rejoin(saved, rest, sret - begin);
        assert ptr[..sret] == saved + rest[..sret - begin];
        ghost var filled := ptr[..sret];
        ptr[sret] := NUL;
        assert ptr[..sret] == filled;
      }
    }

    // Reads behind the first `begin` bytes, with one byte left for the NUL.
    method ReadBehind(ptr: array<byte>, size: nat, begin: nat, read_size: nat) returns (done: bool, ret: int, sret: nat)
      requires Valid() && ptr.Length > size && begin + read_size <= size && extra == None && (eof ==> begin == 0)
      requires (chunk_size > 0 ==> begin == 0 && read_size <= chunk_size)
      requires content_length > 0 ==> read_bytes + read_size <= content_length
      modifies this`chunk_size, this`read_bytes, stream, ptr
      ensures Valid() && stream.errors == old(stream.errors) + if done && ret == -1 then 1 else 0
      ensures done ==> ret >= -1 && !eof && read_size > 0 && sret == 0
      ensures done ==> stream.portions == PortionsAfter(old(stream.portions), ret)
      ensures done && ret <= 0 ==> stream.rest == old(stream.rest) && chunk_size == old(chunk_size)
      ensures done && ret == 0 ==> size <= 1 || stream.rest == []
      ensures done && ret > 0 ==>
                && ret < size && begin == 0 && old(chunk_size) > 0 && ret <= |old(stream.rest)|
                && ptr[..ret] == old(stream.rest)[..ret] && stream.rest == old(stream.rest)[ret..]
                && chunk_size == old(chunk_size) - ret
      ensures read_bytes == old(read_bytes) + if done && ret <= 0 then 0 else if done then ret else sret - begin
      ensures !done ==>
                && begin <= sret <= size && chunk_size == old(chunk_size)
                && sret - begin <= |old(stream.rest)| && stream.rest == old(stream.rest)[sret - begin..]
                && ptr[..sret] == old(ptr[..begin]) + old(stream.rest)[..sret - begin]
                && stream.portions == PortionsAfter(old(stream.portions), sret - begin)
                && (if read_size == 0 || eof then sret == begin else begin < sret < begin + size && chunk_size == 0)
    {
      ghost var rest := stream.rest;
      if read_size == 0 || eof {
        assert rest[..0] == [] && rest[0..] == rest && ptr[..begin] + [] == ptr[..begin];
        return false, 0, begin;
      }
      ret := stream.Read(ptr, begin, if size == read_size then read_size - 1 else read_size);
      if ret <= 0 {
        return true, ret, 0;
      }
      read_bytes := read_bytes + ret;
      if chunk_size > 0 {
        assert ptr[..0] + rest[..ret] == rest[..ret];
        chunk_size := chunk_size - ret;
        return true, ret, 0;
      }
      return false, 0, ret + begin;
    }

    // Records what came of the reading half.
    ghost method Log(e: Event)
      modifies this`spot, this`events
      ensures spot == Next(old(spot), e) && events == old(events) + [e]
    {
      spot, events := Next(spot, e), events + [e];
    }

    // What a pass over `raw` needs of the spot before it.
    ghost predicate Due(was: Spot, raw: seq<byte>)
      reads stream
    {
      ValidTodo(was.todo) && was.todo.head == [] && raw + stream.rest <= WireOf(was.todo)
    }

    /**
     * What a call promises that began at `was` with these bytes undecoded and did
     * not fail: it handed out the next payload bytes, and decoding can go on. A 0 is
     * the end of the stream, or a buffer that was one whole header.
     */
    ghost predicate HandedOut(size: nat, was: Spot, undecoded: seq<byte>, buffer: seq<byte>, ret: int)
      reads this, stream
    {
      var spent := |undecoded| - |stream.rest|;
      && Delivered(was.todo, spot.todo, spent, eof, buffer, ret)
      && (!eof ==> Framed())
      && (!eof && ret > 0 ==> Balanced(was.todo, |undecoded|, spot.todo, |Undecoded()|))
      && (!eof && ret == 0 ==> size <= 1 || stream.rest == [] || (HeaderOnly(was.todo, spent) && chunk_size > 0))
    }

    /** A header that is still not whole after three passes: all that was undecoded and came off the wire is saved. */
    ghost predicate Stuck(passes: int, undecoded: seq<byte>)
      reads this, stream
    {
      passes >= 3 && extra.Some? && !HasHeader(extra.value) && extra.value + stream.rest == undecoded
    }

    /**
     * Why a call failed after so many passes: for the wire, for more saved bytes than
     * the caller has room for, or for a header that is still not whole after three.
     */
    ghost predicate Failed(passes: int, errors: nat, size: nat)
      reads this, stream
    {
      stream.errors > errors || |Saved()| > size || (passes >= 3 && extra.Some? && !HasHeader(extra.value))
    }

    /** The decoding half of one call; `was` is the spot before the pass over the first `filled` bytes. */
    method DecodeFilled(ptr: array<byte>, size: nat, filled: nat, ghost was: Spot) returns (ret: int)
      requires Valid() && chunked_transfer && extra == None && chunk_size == 0 && read_ref_cnt > 0
      requires 0 < filled <= size < ptr.Length && ptr[filled] == NUL && !eof
      requires if was.wrong then spot == was else spot == Passed(was, filled) && Due(was, ptr[..filled])
      modifies this, stream, ptr
      ensures Valid() && ret <= size && chunked_transfer && content_length == old(content_length)
      ensures Went(size, old(spot), old(events), old(stream.portions), spot, events, stream.portions)
      ensures ret < 0 ==> !eof
      ensures old(Decode(ptr[..filled])) == Bad ==> ret == GFTP_EFATAL && !connected
      ensures !spot.wrong && ret >= 0 ==> HandedOut(size, was, old(ptr[..filled] + stream.rest), ptr[..size], ret)
      ensures !spot.wrong && ret < 0 ==>
                stream.errors > old(stream.errors) ||
                Stuck(|events| - |old(events)| + old(read_ref_cnt), old(ptr[..filled] + stream.rest))
      ensures read_ref_cnt >= old(read_ref_cnt) - 1 && stream.errors >= old(stream.errors)
      ensures ret >= 0 ==> read_ref_cnt == old(read_ref_cnt) - 1
      decreases if read_ref_cnt < 4 then 4 - read_ref_cnt else 0, 1
    {
      hide Delivered, WireOf, ValidTodo, EndsWithPayload, Decode, Accounted, Shows, PayloadOf, TodoAfter, SavedAfter;
      hide Went, HasHeader, Balanced, HeaderOnly;
      ghost var raw, rest := ptr[..filled], stream.rest;
      assert (raw + rest)[..filled] == raw;
      if !was.wrong {
        PrefixOfPrefix(raw, rest, WireOf(was.todo));
      }
      var verdict, sret := DecodeInPlace(ptr, filled);
      VerdictFields(raw, verdict, ptr[..sret], chunk_size, extra);
      if !spot.wrong {
        DecodePrefix(raw, was.todo);
        PassOutcome(raw, rest, was.todo, verdict, ptr[..sret], chunk_size, extra);
        DeliveredFrom(raw, was.todo, verdict == LastChunk, ptr[..sret], ptr[..size]);
      }
      WentNowhere(size, spot, events, stream.portions);
      if verdict == Waiting && sret == 0 {
        ret := ReadOn(ptr, size, was, raw);
      } else {
        read_ref_cnt := read_ref_cnt - 1;
        ret := sret;
        if verdict == Invalid {
          connected := false;
          ret := GFTP_EFATAL;
        } else if verdict == LastChunk {
          eof := true;
        }
      }
    }

    // Everything in the buffer was saved: once more from the start, unless it was the third time.
    method ReadOn(ptr: array<byte>, size: nat, ghost was: Spot, ghost raw: seq<byte>) returns (ret: int)
      requires Valid() && chunked_transfer && chunk_size == 0 && read_ref_cnt > 0 && !eof
      requires ptr.Length > size >= |raw|
      requires !spot.wrong ==> Framed() && spot.todo == was.todo && extra == Some(raw) && !HasHeader(raw)
      modifies this, stream, ptr
      ensures Valid() && ret <= size && chunked_transfer && content_length == old(content_length)
      ensures Went(size, old(spot), old(events), old(stream.portions), spot, events, stream.portions)
      ensures ret < 0 ==> !eof
      ensures old(read_ref_cnt) > 2 ==> ret == GFTP_EFATAL && !connected && stream.rest == old(stream.rest)
      ensures !spot.wrong && ret >= 0 ==> HandedOut(size, was, raw + old(stream.rest), ptr[..size], ret)
      ensures !spot.wrong && ret < 0 ==>
                stream.errors > old(stream.errors) ||
                Stuck(|events| - |old(events)| + old(read_ref_cnt), raw + old(stream.rest))
      ensures read_ref_cnt >= old(read_ref_cnt) - 1 && stream.errors >= old(stream.errors)
      ensures ret >= 0 ==> read_ref_cnt == old(read_ref_cnt) - 1
      decreases if read_ref_cnt < 4 then 4 - read_ref_cnt else 0, 0
    {
      hide Delivered, Balanced, HeaderOnly, Went, HasHeader, WireOf, ValidTodo;
      ghost var spot1, events1, portions1 := spot, events, stream.portions;
      // A hostile server could keep this going.
      if read_ref_cnt > 2 {
        WentNowhere(size, spot, events, stream.portions);
        connected := false;
        read_ref_cnt := read_ref_cnt - 1;
        return GFTP_EFATAL;
      }
      ret := ChunkedRead(ptr, size);
      WrongStays(size, spot1, events1, portions1, spot, events, stream.portions);
      if ret >= 0 {
        read_ref_cnt := read_ref_cnt - 1;
      }
    }

    /**
     * rfc2068_chunked_read: for every well-formed body and every way its bytes
     * arrive, a call that is not an error hands out the next payload bytes, as
     * long as no pass met a buffer that ended exactly with a chunk's payload.
     */
    method ChunkedRead(ptr: array<byte>, size: nat) returns (ret: int)
      requires Valid() && ptr.Length > size
      requires chunked_transfer && !spot.wrong && !eof ==> Framed()
      modifies this, stream, ptr
      ensures Valid() && ret <= size
      ensures chunked_transfer == old(chunked_transfer) && content_length == old(content_length)
      // Where decoding stands follows from where it stood and from what was read, and nothing else.
      ensures chunked_transfer ==> Went(size, old(spot), old(events), old(stream.portions), spot, events, stream.portions)
      ensures old(eof) ==> ret == 0 && eof && spot == old(spot) && stream.rest == old(stream.rest)
      ensures ret < 0 ==> !eof
      ensures chunked_transfer && !spot.wrong && !old(eof) && ret >= 0 ==>
                HandedOut(size, old(spot), old(Undecoded()), ptr[..size], ret)
      ensures |old(Saved())| > size ==> ret == GFTP_EFATAL && Saved() == old(Saved())
      // An error is one of the wire, saved bytes for which there is no room, or a header that came in too many pieces.
      ensures chunked_transfer && !spot.wrong && ret < 0 ==>
                stream.errors > old(stream.errors) || |old(Saved())| > size ||
                Stuck(|events| - |old(events)| + old(read_ref_cnt), old(Undecoded()))
      ensures read_ref_cnt >= old(read_ref_cnt) && stream.errors >= old(stream.errors)
      ensures ret >= 0 ==> read_ref_cnt == old(read_ref_cnt)
      // A body with a length, or none: the bytes as they come, and no more than the length.
      ensures !chunked_transfer && ret >= 0 ==>
                ret <= |old(stream.rest)| && ptr[..ret] == old(stream.rest)[..ret] && stream.rest == old(stream.rest)[ret..]
      ensures !chunked_transfer && ret < 0 ==> stream.errors > old(stream.errors)
      ensures !chunked_transfer && ret >= 0 ==> read_bytes == old(read_bytes) + ret
      ensures !chunked_transfer && ret == 0 ==> size <= 1 || stream.rest == [] || 0 < content_length == read_bytes
      decreases if read_ref_cnt < 3 then 3 - read_ref_cnt else 0, 4
    {
      hide Went, HandedOut, Stuck, WireOf, ValidTodo;
      read_ref_cnt := read_ref_cnt + 1;
      if chunked_transfer {
        ret := ReadChunked(ptr, size);
      } else {
        ret := ReadPlain(ptr, size);
      }
    }

    // The same for a response that is not chunked.
    method ReadPlain(ptr: array<byte>, size: nat) returns (ret: int)
      requires Valid() && !chunked_transfer && ptr.Length > size && read_ref_cnt > 0
      modifies this`extra, this`chunk_size, this`read_bytes, this`read_ref_cnt, stream, ptr
      ensures Valid() && ret <= size && read_ref_cnt >= old(read_ref_cnt) - 1
      ensures ret >= 0 ==> read_ref_cnt == old(read_ref_cnt) - 1
      ensures ret < 0 ==> stream.errors > old(stream.errors)
      ensures stream.errors >= old(stream.errors)
      ensures ret >= 0 ==>
                && ret <= |old(stream.rest)| && ptr[..ret] == old(stream.rest)[..ret] && stream.rest == old(stream.rest)[ret..]
                && read_bytes == old(read_bytes) + ret
      ensures ret == 0 ==> size <= 1 || stream.rest == [] || 0 < content_length == read_bytes
    {
      ghost var undecoded := Undecoded();
      assert [] + stream.rest == stream.rest;
      var done, sret;
      done, ret, sret := Fill(ptr, size);
      if !done {
        ret := sret;
        assert ptr[..sret] == undecoded[..sret] && stream.rest == undecoded[sret..];
      }
      read_ref_cnt := read_ref_cnt - 1;
    }

    // And for one that is.
    method ReadChunked(ptr: array<byte>, size: nat) returns (ret: int)
      requires Valid() && chunked_transfer && ptr.Length > size && read_ref_cnt > 0
      requires !spot.wrong && !eof ==> Framed()
      modifies this, stream, ptr
      ensures Valid() && ret <= size && chunked_transfer && content_length == old(content_length)
      ensures Went(size, old(spot), old(events), old(stream.portions), spot, events, stream.portions)
      ensures old(eof) ==> ret == 0 && eof && spot == old(spot) && stream.rest == old(stream.rest)
      ensures ret < 0 ==> !eof
      ensures !spot.wrong && !old(eof) && ret >= 0 ==> HandedOut(size, old(spot), old(Undecoded()), ptr[..size], ret)
      ensures |old(Saved())| > size ==> ret == GFTP_EFATAL && Saved() == old(Saved())
      ensures !spot.wrong && ret < 0 ==>
                stream.errors > old(stream.errors) || |old(Saved())| > size ||
                Stuck(|events| - |old(events)| + old(read_ref_cnt) - 1, old(Undecoded()))
      ensures read_ref_cnt >= old(read_ref_cnt) - 1 && stream.errors >= old(stream.errors)
      ensures ret >= 0 ==> read_ref_cnt == old(read_ref_cnt) - 1
      decreases if read_ref_cnt < 4 then 4 - read_ref_cnt else 0, 3
    {
      hide WireOf, ValidTodo, Went, EndsWithPayload, TodoAfter, SavedAfter, PayloadOf, Echo, SaysEnd, HasHeader;
      hide Delivered, Balanced, HeaderOnly, HandedOut, Stuck, LineReader.PortionsAfter;
      ghost var undecoded, saved := Undecoded(), Saved();
      assert [] + stream.rest == stream.rest;
      WentNowhere(size, spot, events, stream.portions);
      var done, sret;
      done, ret, sret := Fill(ptr, size);
      if !done {
        ret := DecodeLogged(ptr, size, sret, undecoded, saved, old(events), old(stream.portions));
      } else {
        if ret != GFTP_EFATAL {
          read_ref_cnt := read_ref_cnt - 1;
        }
        if ret >= 0 {
          HandOn(ptr, size, ret, undecoded, old(stream.portions));
        }
      }
    }

    // The call ends with the bytes that were read.
    ghost method HandOn(ptr: array<byte>, size: nat, ret: nat, undecoded: seq<byte>, p: seq<nat>)
      requires ptr.Length > size >= ret && !eof && chunk_size >= 0
      requires stream.portions == PortionsAfter(p, ret)
      requires ret > 0 ==> ret < size && (!spot.wrong ==> |spot.todo.head| >= ret)
      requires ret == 0 ==> size <= 1 || stream.rest == []
      requires !spot.wrong ==>
                 && ValidTodo(spot.todo) && undecoded <= WireOf(spot.todo) && |spot.todo.head| == chunk_size + ret
                 && (ret == 0 ==> Undecoded() == [] || (Undecoded() == undecoded && spot.saved == |Saved()|))
                 && (ret > 0 ==> undecoded == ptr[..ret] + Undecoded() && Saved() == [] && spot.saved == 0)
      modifies this`spot, this`events
      ensures Went(size, old(spot), old(events), p, spot, events, stream.portions)
      ensures !spot.wrong ==> HandedOut(size, old(spot), undecoded, ptr[..size], ret)
    {
      hide WireOf, ValidTodo, Went, HandedOut;
      ghost var was := spot;
      assert ptr[..size][..ret] == ptr[..ret];
      if ret > 0 {
        WentOne(size, spot, events, p, Came(ret));
        Log(Came(ret));
      } else {
        WentNowhere(size, spot, events, p);
      }
      if !was.wrong {
        HandedOn(size, was, ptr[..ret], undecoded, ptr[..size]);
      }
    }

    // Decodes what is in the buffer, if anything is, and records the event.
    method DecodeLogged(ptr: array<byte>, size: nat, filled: nat, ghost undecoded: seq<byte>, ghost saved: seq<byte>,
                        ghost e: seq<Event>, ghost p: seq<nat>) returns (ret: int)
      requires Valid() && chunked_transfer && extra == None && read_ref_cnt > 0
      requires filled <= size < ptr.Length && ptr[filled] == NUL && |saved| <= filled && events == e
      requires filled == |saved| || filled - |saved| < size
      requires (chunk_size > 0 ==> filled == 0) && (filled == 0 ==> size == 0 || eof) && (eof ==> filled == 0)
      requires ptr[..filled] + stream.rest == undecoded && saved <= undecoded
      requires !spot.wrong && !eof ==>
                 && ValidTodo(spot.todo) && |spot.todo.head| == chunk_size && undecoded <= WireOf(spot.todo)
                 && (spot.saved == |saved| || undecoded == [])
      requires |saved| == filled > 0 ==> filled == size || SaysEnd(saved)
      requires stream.portions == PortionsAfter(p, filled - |saved|)
      modifies this, stream, ptr
      ensures Valid() && ret <= size && chunked_transfer && content_length == old(content_length)
      ensures Went(size, old(spot), e, p, spot, events, stream.portions)
      ensures old(eof) ==> ret == 0 && eof && spot == old(spot) && stream.rest == old(stream.rest)
      ensures ret < 0 ==> !eof
      ensures !spot.wrong && !old(eof) && ret >= 0 ==> HandedOut(size, old(spot), undecoded, ptr[..size], ret)
      ensures !spot.wrong && ret < 0 ==>
                stream.errors > old(stream.errors) || Stuck(|events| - |e| + old(read_ref_cnt) - 1, undecoded)
      ensures read_ref_cnt >= old(read_ref_cnt) - 1 && stream.errors >= old(stream.errors)
      ensures ret >= 0 ==> read_ref_cnt == old(read_ref_cnt) - 1
      decreases if read_ref_cnt < 4 then 4 - read_ref_cnt else 0, 2
    {
      hide WireOf, ValidTodo, Went, EndsWithPayload, TodoAfter, SavedAfter, SaysEnd, HasHeader, HandedOut;
      ghost var was := spot;
      if chunk_size > 0 || filled == 0 {
        read_ref_cnt := read_ref_cnt - 1;
        WentNowhere(size, spot, events, p);
        NoRoom(ptr, size, filled, undecoded);
        return 0;
      }
      ghost var x := if filled > |saved| then Came(filled - |saved|) else Again;
      if !was.wrong && x == Again && SaysEnd(saved) {
        assert saved == undecoded[..filled] == ptr[..filled];
        EndIsNext(saved, stream.rest, was.todo);
      }
      WentOne(size, spot, events, p, x);
      Log(x);
      ghost var spot1, events1, portions1 := spot, events, stream.portions;
      ret := DecodeFilled(ptr, size, filled, was);
      WentOn(size, was, e, p, spot1, events1, portions1, spot, events, stream.portions);
      WrongStays(size, was, e, p, spot, events, stream.portions);
    }

    // There was no room to read into.
    lemma NoRoom(ptr: array<byte>, size: nat, filled: nat, undecoded: seq<byte>)
      requires ptr.Length > size && filled == 0 && (!eof ==> size == 0) && extra == None
      requires ptr[..filled] + stream.rest == undecoded
      requires !spot.wrong && !eof ==> ValidTodo(spot.todo) && undecoded <= WireOf(spot.todo) && |spot.todo.head| == chunk_size
      requires !spot.wrong && !eof ==> spot.saved == 0 || stream.rest == []
      ensures stream.rest == undecoded
      ensures !spot.wrong && !eof ==> HandedOut(size, spot, undecoded, ptr[..size], 0)
    {
      hide Delivered, WireOf, ValidTodo, Balanced, HeaderOnly;
      assert [] + stream.rest == stream.rest;
      NothingDelivered(spot.todo, |undecoded| - |stream.rest|, ptr[..size]);
    }

    // The bytes read went to the caller as they are: they belong to the current chunk.
    lemma HandedOn(size: nat, was: Spot, got: seq<byte>, undecoded: seq<byte>, buffer: seq<byte>)
      requires got <= buffer && !eof && (got == [] ==> size <= 1 || stream.rest == [])
      requires ValidTodo(was.todo) && undecoded <= WireOf(was.todo) && chunk_size >= 0
      requires |was.todo.head| == chunk_size + |got| && !was.wrong
      requires if got == [] then spot == was && (Undecoded() == [] || (Undecoded() == undecoded && was.saved == |Saved()|))
               else undecoded == got + Undecoded() && Saved() == [] && was.saved == 0 && spot == Next(was, Came(|got|))
      ensures HandedOut(size, was, undecoded, buffer, |got|)
    {
      var t := was.todo;
      assert buffer[..|got|] == got;
      if got == [] {
        assert [] + PayloadOf(t) == PayloadOf(t);
      } else {
        var head, n, e := t.head, |got|, Encode(t.chunks, t.last, t.trailer);
        assert got == undecoded[..n] == WireOf(t)[..n] == head[..n];
        assert head == got + head[n..] && spot.todo == t.(head := head[n..]);
        Regroup(got, head[n..], e);
        Regroup(got, head[n..], Payloads(t.chunks));
        assert WireOf(t) == got + WireOf(spot.todo);
        assert Undecoded() == undecoded[n..] <= WireOf(t)[n..] == WireOf(spot.todo);
      }
    }
  }

  /** Saved bytes that start with the end of the body. */
  predicate SaysEnd(saved: seq<byte>) {
    |saved| > 5 && saved[..5] == CRLF + [48] + CRLF
  }

  lemma ZeroHeader(header: seq<byte>, behind: seq<byte>)
    requires ValidHeader(header) && CRLF + [48] + CRLF <= HeaderBytes(header) + behind
    ensures ScanHex(header) == Some(0)
  {
    var wire := HeaderBytes(header) + behind;
    assert HexPrefix([48], 0) == HexPrefix([], 0) == 0;
    assert forall i | 0 <= i < 5 :: wire[i] == (CRLF + [48] + CRLF)[i];
    assert forall i | 0 <= i < |header| :: header[i] == wire[i + 2] && header[i] in header;
    assert forall k | 2 <= k < 2 + |header| :: wire[k] == header[k - 2] && wire[k] in header;
    assert wire[3] !in header;
    assert |header| < 2;
    assert header == [] || header == [48];
  }

  // A header that says 0 is that of the last chunk.
  lemma EndIsNext(saved: seq<byte>, rest: seq<byte>, t: Todo)
    requires SaysEnd(saved) && ValidTodo(t) && t.head == [] && saved + rest <= WireOf(t)
    ensures t.chunks == []
  {
    hide ScanHex, SaysSize;
    if t.chunks != [] {
      FirstChunkIsValid(t);
      var c, wire := t.chunks[0], WireOf(t);
      assert wire == HeaderBytes(c.header) + (c.payload + Encode(t.chunks[1..], t.last, t.trailer));
      assert wire[..5] == (saved + rest)[..5] == saved[..5];
      SizeIsScanned(c.header, |c.payload|);
      ZeroHeader(c.header, c.payload + Encode(t.chunks[1..], t.last, t.trailer));
    }
  }

  lemma VerdictFields(raw: seq<byte>, verdict: Verdict, buffer: seq<byte>, chunk_size: int, extra: Option<seq<byte>>)
    requires Shows(Decode(raw), verdict, buffer, chunk_size, extra)
    ensures verdict == Waiting <==> extra.Some?
    ensures verdict == Invalid <==> Decode(raw) == Bad
    ensures extra.Some? ==> extra.value != []
    ensures verdict == Finished && buffer == [] && raw != [] ==> chunk_size > 0
    ensures verdict == LastChunk ==> chunk_size == 0
    // At the end of the body there is nothing to decode.
    ensures raw == [] ==> verdict == Finished && buffer == [] && chunk_size == 0
  {
    if raw != [] {
      SomethingComesOut(raw);
    }
  }

  lemma {:induction false} SomethingComesOut(raw: seq<byte>)
    requires raw != []
    ensures Decode(raw).Partial? && Decode(raw).out == [] && Decode(raw).saved == [] ==> Decode(raw).chunk > 0
    decreases |raw|
  {
    hide ScanHex, CrlfAt, Decode;
    if HasHeader(raw) {
      DecodeSize(raw);
      var end := CrlfAt(raw, 2);
      var rest, n := raw[end + 2..], ScanHex(raw[2..end]);
      if n.Some? && 0 < n.value == |rest| {
        SomethingComesOut(rest);
      }
    } else {
      NoHeader(raw);
    }
  }

  lemma {:induction false} SavesAtMost(n: nat, t: Todo)
    ensures SavedAfter(n, t) <= n && (SavedAfter(n, t) == n > 0 && t.head == [] ==> TodoAfter(n, t) == t)
    decreases |t.chunks|
  {
    if t.chunks != [] {
      var c := t.chunks[0];
      var h := |HeaderBytes(c.header)|;
      if n >= h && n - h >= |c.payload| {
        SavesAtMost(n - h - |c.payload|, t.(chunks := t.chunks[1..]));
      }
    }
  }

  lemma {:induction false} SavesLess(raw: seq<byte>)
    requires HasHeader(raw) && Decode(raw).Partial?
    ensures |Decode(raw).saved| < |raw|
    decreases |raw|
  {
    hide ScanHex, CrlfAt, Decode;
    DecodeSize(raw);
    var end := CrlfAt(raw, 2);
    var rest, n := raw[end + 2..], ScanHex(raw[2..end]).value;
    var next := if n < |rest| then rest[n..] else rest;
    if 0 < n <= |rest| {
      if HasHeader(next) {
        SavesLess(next);
      } else {
        NoHeader(next);
      }
    }
  }

  // What the pass left in the buffer and in the fields is the next payload and what is to come.
  lemma PassOutcome(raw: seq<byte>, rest: seq<byte>, t: Todo,
                    verdict: Verdict, buffer: seq<byte>, chunk_size: int, extra: Option<seq<byte>>)
    requires Accounted(raw, t, Decode(raw)) && Shows(Decode(raw), verdict, buffer, chunk_size, extra)
    requires raw != [] && raw + rest <= WireOf(t) && ValidTodo(t) && t.head == [] && !EndsWithPayload(|raw|, t.chunks)
    ensures verdict != Invalid
    ensures verdict == LastChunk ==> Finishes(raw, t, buffer) && PayloadOf(TodoAfter(|raw|, t)) == []
    ensures verdict != LastChunk ==>
              var next, saved := TodoAfter(|raw|, t), if extra.Some? then extra.value else [];
              && PayloadOf(t) == buffer + PayloadOf(next)
              && ValidTodo(next) && |next.head| == chunk_size
              && saved + rest <= WireOf(next) && |saved| == SavedAfter(|raw|, t)
              && Balanced(t, |raw| + |rest|, next, |saved| + |rest|)
    ensures verdict == Waiting && buffer == [] ==> TodoAfter(|raw|, t) == t && extra == Some(raw) && !HasHeader(raw)
    ensures verdict == Finished && buffer == [] ==> HeaderOnly(t, |raw|)
  {
    hide Decode, ValidTodo, WireOf, PayloadOf, TodoAfter, SavedAfter, HasHeader, EndsWithPayload, HeaderBytes;
    if verdict != LastChunk {
      var saved := Decode(raw).saved;
      SavedInFront(raw, saved, rest, WireOf(t));
      SavesAtMost(|raw|, t);
      if HasHeader(raw) {
        SavesLess(raw);
      }
      PrefixOfPrefix(raw, rest, WireOf(t));
      EmptyPass(raw, t);
    }
  }

  lemma SavedInFront(raw: seq<byte>, saved: seq<byte>, rest: seq<byte>, wire: seq<byte>)
    requires |saved| <= |raw| && saved == raw[|raw| - |saved|..] && raw + rest <= wire
    ensures saved + rest <= wire[|raw| - |saved|..]
  {
    var k := |raw| - |saved|;
    assert saved + rest == (raw + rest)[k..] == wire[k..][..|saved + rest|];
  }

  /** A pass that meets the end of the body leaves the rest of the payload, and the echo behind it. */
  predicate Finishes(raw: seq<byte>, t: Todo, buffer: seq<byte>) {
    var m := TrailerWithin(|raw|, t);
    0 <= m <= |t.trailer| && buffer == PayloadOf(t) + Echo(t, m)
  }

  lemma DeliveredFrom(raw: seq<byte>, t: Todo, ended: bool, front: seq<byte>, buffer: seq<byte>)
    requires front <= buffer
    requires if ended then Finishes(raw, t, front) && PayloadOf(TodoAfter(|raw|, t)) == []
             else PayloadOf(t) == front + PayloadOf(TodoAfter(|raw|, t))
    ensures Delivered(t, TodoAfter(|raw|, t), |raw|, ended, buffer, |front|)
  {
    hide PayloadOf, TodoAfter, Echo;
    assert buffer[..|front|] == front;
  }

  lemma NothingDelivered(t: Todo, spent: int, buffer: seq<byte>)
    ensures Delivered(t, t, spent, false, buffer, 0)
  {
    assert [] + PayloadOf(t) == PayloadOf(t);
  }

  /** What left the undecoded bytes is what left the bytes to come. */
  predicate Balanced(t: Todo, undecoded: int, next: Todo, undecoded': int) {
    |WireOf(t)| - |WireOf(next)| == undecoded - undecoded'
  }

  /** The bytes that went are exactly the header of the next chunk. */
  predicate HeaderOnly(t: Todo, spent: int) {
    t.head == [] && t.chunks != [] && spent == |HeaderBytes(t.chunks[0].header)|
  }

  /**
   * What one call that takes `spent` bytes off the body `t` has to hand out, so
   * that `next` is left: the next payload bytes, or, in the call that meets the
   * end of the body, exactly all the rest of them and the echo of the last header.
   */
  predicate Delivered(t: Todo, next: Todo, spent: int, eof: bool, buffer: seq<byte>, ret: int) {
    0 <= ret <= |buffer| &&
    if eof then
      var m := TrailerWithin(spent, t);
      0 <= m <= |t.trailer| && buffer[..ret] == PayloadOf(t) + Echo(t, m) && PayloadOf(next) == []
    else PayloadOf(t) == buffer[..ret] + PayloadOf(next)
  }

  lemma Rejoin(a: seq<byte>, b: seq<byte>, n: nat)
    requires n <= |b|
    ensures a + b[..n] + b[n..] == a + b
  {
  }

  lemma PrefixOfPrefix(a: seq<byte>, b: seq<byte>, c: seq<byte>)
    requires a + b <= c
    ensures a <= c
  {
    assert a == (a + b)[..|a|] == c[..|a|];
  }

  lemma SliceOfSlice(ptr: array<byte>, a: nat, b: nat, i: nat, j: nat)
    requires a <= b <= ptr.Length && i <= j <= b - a
    ensures ptr[a..b][i..j] == ptr[a + i..a + j]
  {
    assert forall k | 0 <= k < j - i :: ptr[a..b][i..j][k] == ptr[a + i..a + j][k];
  }

  lemma SlicesJoin(ptr: array<byte>, a: nat, b: nat, n: nat)
    requires a <= b <= ptr.Length && n <= b - a
    ensures ptr[..a] + ptr[a..b] == ptr[..b]
    ensures ptr[..a] + ptr[a..b][..n] == ptr[..a + n] && ptr[a..b][n..] == ptr[a + n..b]
  {
    SliceOfSlice(ptr, a, b, 0, n);
    SliceOfSlice(ptr, a, b, n, b - a);
  }

  lemma FinishedShows(out: seq<byte>, chunk_size: nat)
    ensures Shows(Partial(out, chunk_size, []), Finished, out, chunk_size, None)
  {
  }

  /** The verdict and the fields after a pass say what the pass made of the buffer. */
  predicate Shows(d: Decoded, verdict: Verdict, buffer: seq<byte>, chunk_size: int, extra: Option<seq<byte>>) {
    match d
    case Partial(out, chunk, saved) =>
      && buffer == out && chunk_size == chunk
      && verdict == (if saved == [] then Finished else Waiting)
      && extra == (if saved == [] then None else Some(saved))
    case Ended(out, echo) =>
      verdict == LastChunk && buffer == out + echo && chunk_size == 0 && extra == None
    case Bad => verdict == Invalid && extra == None
  }

  lemma PrependTwice(a: seq<byte>, b: seq<byte>, d: Decoded)
    ensures Prepend(a, Prepend(b, d)) == Prepend(a + b, d)
  {
    if !d.Bad? {
      Regroup(a, b, d.out);
    }
  }

  // One step of the pass, with what came out before in front.
  lemma UnfoldNothing(raw: seq<byte>, out: seq<byte>)
    requires raw == [] || !HasHeader(raw)
    ensures Prepend(out, Decode(raw)) == Partial(out, 0, raw)
  {
    hide HasHeader;
    assert out + [] == out;
  }

  lemma UnfoldBad(raw: seq<byte>, out: seq<byte>)
    requires HasHeader(raw) && ScanHex(raw[2..CrlfAt(raw, 2)]) == None
    ensures Prepend(out, Decode(raw)) == Bad
  {
    hide ScanHex, CrlfAt;
  }

  lemma {:induction false} UnfoldSize(raw: seq<byte>, out: seq<byte>, len: nat, n: nat)
    requires HasHeader(raw) && len == CrlfAt(raw, 2) + 2 && ScanHex(raw[2..len - 2]) == Some(n)
    ensures var rest := raw[len..];
            Prepend(out, Decode(raw)) ==
              if n == 0 then Ended(out, EchoOf(raw, len - 2))
              else if n < |rest| then Prepend(out + rest[..n], Decode(rest[n..]))
              else if n > |rest| then Partial(out + rest, n - |rest|, [])
              else Prepend(out, Decode(rest))
  {
    hide ScanHex, CrlfAt;
    assert out + [] == out;
    var rest := raw[len..];
    if 0 < n < |rest| {
      PrependTwice(out, rest[..n], Decode(rest[n..]));
    }
  }

  lemma PrependNothing(d: Decoded)
    ensures Prepend([], d) == d
  {
  }

  // ----- a whole response -----

  /** A size line that says that there is a chunk. */
  ghost predicate Announces(line: seq<byte>) {
    exists n: nat :: n > 0 && SaysSize(line, n)
  }

  lemma AnnouncedIsScanned(line: seq<byte>)
    ensures Announces(line) <==> ScanHex(line).Some? && ScanHex(line).value > 0
  {
    hide ScanHex, SaysSize;
    if ScanHex(line).Some? {
      SizeIsScanned(line, ScanHex(line).value);
    }
    if Announces(line) {
      var n: nat :| n > 0 && SaysSize(line, n);
      SizeIsScanned(line, n);
    }
  }

  /** The response being read: the line buffer its headers came through, and the decoder. */
  class Response {
    const reader: ChunkedReader
    var rbuf: LineBuffer?

    constructor (reader: ChunkedReader, rbuf: LineBuffer)
      ensures this.reader == reader && this.rbuf == rbuf
    {
      this.reader, this.rbuf := reader, rbuf;
    }

    ghost predicate Valid()
      reads this, reader, reader.stream, rbuf, if rbuf == null then {} else {rbuf.buffer}
    {
      && reader.Valid() && (rbuf != null ==> rbuf.Valid())
      && (reader.chunked_transfer && !reader.spot.wrong && !reader.eof ==> reader.Framed())
    }

    function Buffered(): seq<byte>
      requires rbuf != null ==> rbuf.Valid()
      reads this, rbuf, if rbuf == null then {} else {rbuf.buffer}
    {
      if rbuf == null then [] else rbuf.Unread()
    }

    /** The payload not handed out yet: what is in the line buffer, then what is still to come. */
    ghost function Left(): seq<byte>
      requires rbuf != null ==> rbuf.Valid()
      reads this, reader, rbuf, if rbuf == null then {} else {rbuf.buffer}
    {
      Buffered() + PayloadOf(reader.spot.todo)
    }

    /**
     * The end of rfc2068_read_response for a chunked body: `tempstr` is the first
     * chunk's size line, and some of what follows it is already in the buffer. If the
     * line says 0 the response is not even marked as chunked.
     */
    method SetUpChunks(tempstr: seq<byte>, ghost payload: seq<byte>, ghost body: Todo) returns (ret: int)
      requires reader.Valid() && (rbuf != null ==> rbuf.Valid())
      requires reader.chunk_size == 0 && reader.content_length == 0 && reader.extra == None && !reader.eof
      // The first chunk's payload and then the rest of a well-formed body.
      requires Announces(tempstr) ==>
                 && rbuf != null && SaysSize(tempstr, |payload|) && ValidTodo(body) && body.head == []
                 && rbuf.Unread() + reader.stream.rest <= payload + WireOf(body)
      modifies reader, rbuf, if rbuf == null then {} else {rbuf.buffer}
      ensures reader.Valid() && rbuf == old(rbuf) && (rbuf != null ==> rbuf.Valid())
      ensures !Announces(tempstr) ==>
                && ret == (if SaysSize(tempstr, 0) then 0 else GFTP_EFATAL)
                && reader.connected == (old(reader.connected) && SaysSize(tempstr, 0))
                && reader.chunked_transfer == old(reader.chunked_transfer) && reader.chunk_size == 0
                && reader.Undecoded() == old(reader.Undecoded()) && Buffered() == old(Buffered())
      ensures Announces(tempstr) ==>
                && Valid() && reader.chunked_transfer && !reader.eof && !reader.spot.wrong && ret == reader.chunk_size
                && rbuf.cur == Min(|old(Buffered())|, |payload|) && Buffered() == payload[..rbuf.cur]
                && reader.spot == Spot(|reader.Saved()|, body.(head := payload[rbuf.cur..]), false)
                && Left() == payload + PayloadOf(body)
    {
      hide WireOf, ScanHex, ValidTodo, PayloadOf, SaysSize;
      var size := ScanHex(tempstr);
      if size.Some? {
        SizeIsScanned(tempstr, size.value);
      }
      SizeIsScanned(tempstr, 0);
      SizeIsScanned(tempstr, |payload|);
      AnnouncedIsScanned(tempstr);
      if size.None? {
        reader.connected := false;
        return GFTP_EFATAL;
      }
      if size.value == 0 {
        return 0;
      }
      ghost var unread := rbuf.Unread();
      CutToChunk(size.value);
      SplitSetUp(unread, reader.stream.rest, payload, WireOf(body), rbuf.cur);
      reader.spot := Spot(|reader.Saved()|, body.(head := payload[rbuf.cur..]), false);
      TodoSetUp(unread[..rbuf.cur], payload, body, rbuf.cur);
      return reader.chunk_size;
    }

    // What is behind the first chunk in the line buffer is saved for the decoder.
    method CutToChunk(size: nat)
      requires rbuf != null && rbuf.Valid() && reader.Valid()
      requires reader.chunk_size == 0 && reader.content_length == 0 && reader.extra == None && !reader.eof
      modifies reader`chunk_size, reader`extra, reader`chunked_transfer, rbuf`cur, rbuf.buffer
      ensures rbuf.Valid() && reader.Valid() && reader.chunked_transfer && reader.chunk_size == size - rbuf.cur
      ensures rbuf.cur == Min(|old(rbuf.Unread())|, size) && rbuf.Unread() == old(rbuf.Unread())[..rbuf.cur]
      ensures reader.Undecoded() == old(rbuf.Unread())[rbuf.cur..] + reader.stream.rest
    {
      ghost var unread := rbuf.Unread();
      reader.chunk_size := size - rbuf.cur;
      if reader.chunk_size < 0 {
        var saved := CutOff(-reader.chunk_size);
        reader.chunk_size := 0;
        reader.extra := Some(saved);
      } else {
        assert unread[..rbuf.cur] == unread;
      }
      reader.chunked_transfer := true;
    }

    // The last n bytes of the line buffer are taken out of it.
    method CutOff(n: nat) returns (saved: seq<byte>)
      requires rbuf != null && rbuf.Valid() && n <= rbuf.cur
      modifies rbuf`cur, rbuf.buffer
      ensures rbuf.Valid() && rbuf.cur == old(rbuf.cur) - n
      ensures saved == old(rbuf.Unread())[rbuf.cur..] && rbuf.Unread() == old(rbuf.Unread())[..rbuf.cur]
    {
      ghost var unread := rbuf.Unread();
      var at := rbuf.curpos + (rbuf.cur - n);
      saved := rbuf.buffer[at..rbuf.curpos + rbuf.cur];
      assert saved == unread[rbuf.cur - n..];
      rbuf.cur := rbuf.cur - n;
      rbuf.buffer[at] := NUL;
      assert rbuf.Unread() == unread[..rbuf.cur];
    }

    // Hands out what is in the line buffer, and lets go of the buffer when it is empty.
    method TakeBuffered(ptr: array<byte>, size: nat) returns (len: nat)
      requires rbuf != null && rbuf.Valid() && ptr.Length > size && ptr != rbuf.buffer
      modifies this`rbuf, rbuf`curpos, rbuf`cur, ptr
      ensures if len == |old(Buffered())| then rbuf == null else rbuf == old(rbuf) && rbuf.Valid()
      ensures len == Min(|old(Buffered())|, size) && old(Buffered()) == ptr[..len] + Buffered()
    {
      ghost var unread := rbuf.Unread();
      len := if rbuf.cur > size then size else rbuf.cur;
      forall i | 0 <= i < len {
        ptr[i] := rbuf.buffer[rbuf.curpos + i];
      }
      assert ptr[..len] == unread[..len];
      if len == rbuf.cur {
        rbuf := null;
        assert unread[..len] == unread;
      } else {
        rbuf.curpos := rbuf.curpos + len;
        rbuf.cur := rbuf.cur - len;
        assert rbuf.Unread() == unread[len..];
      }
    }

    /**
     * rfc2068_get_next_file_chunk: first what is left in the line buffer, then from
     * the decoder. An empty line buffer makes for a 0, whatever is still to come.
     */
    method GetNextFileChunk(ptr: array<byte>, size: nat) returns (ret: int)
      requires Valid() && ptr.Length > size && (rbuf != null ==> ptr != rbuf.buffer)
      requires reader.chunked_transfer
      modifies this`rbuf, reader, reader.stream, rbuf, ptr
      ensures reader.Valid() && (rbuf != null ==> rbuf.Valid()) && (ret >= 0 ==> Valid())
      ensures ret <= size && reader.chunked_transfer && (ret < 0 ==> !reader.eof)
      ensures (rbuf == old(rbuf) && rbuf != null && rbuf.cur > 0) || rbuf == null
      ensures Went(size, old(reader.spot), old(reader.events), old(reader.stream.portions),
                   reader.spot, reader.events, reader.stream.portions)
      ensures old(rbuf) != null ==>
                && ret == Min(|old(Buffered())|, size) && old(Buffered()) == ptr[..ret] + Buffered()
                && reader.spot == old(reader.spot) && reader.eof == old(reader.eof)
                && reader.Undecoded() == old(reader.Undecoded()) && reader.stream.rest == old(reader.stream.rest)
      ensures old(rbuf == null && reader.eof) ==> ret == 0 && reader.eof
      ensures old(rbuf == null && !reader.eof) && !reader.spot.wrong && ret >= 0 ==>
                reader.HandedOut(size, old(reader.spot), old(reader.Undecoded()), ptr[..size], ret)
      ensures old(rbuf == null) && !reader.spot.wrong && ret < 0 ==>
                reader.stream.errors > old(reader.stream.errors) || |old(reader.Saved())| > size ||
                reader.Stuck(|reader.events| - |old(reader.events)| + old(reader.read_ref_cnt), old(reader.Undecoded()))
      ensures !reader.spot.wrong && ret < 0 ==>
                reader.Failed(|reader.events| - |old(reader.events)| + old(reader.read_ref_cnt), old(reader.stream.errors), size)
      ensures ret >= 0 ==> reader.read_ref_cnt == old(reader.read_ref_cnt)
      ensures reader.stream.errors >= old(reader.stream.errors)
    {
      hide Went, Reads, Run;
      if rbuf != null {
        WentNowhere(size, reader.spot, reader.events, reader.stream.portions);
        ret := TakeBuffered(ptr, size);
      } else {
        ret := reader.ChunkedRead(ptr, size);
      }
    }

    // How far reading the body has come.
    ghost predicate Progress(t: Todo, undecoded: int, left: seq<byte>, data: seq<byte>)
      requires rbuf != null ==> rbuf.Valid()
      reads this, reader, reader.stream, rbuf, if rbuf == null then {} else {rbuf.buffer}
    {
      data + Left() == left && Balanced(t, undecoded, reader.spot.todo, |reader.Undecoded()|)
    }

    lemma ProgressStarts()
      requires rbuf != null ==> rbuf.Valid()
      ensures Progress(reader.spot.todo, |reader.Undecoded()|, Left(), [])
    {
      assert [] + Left() == Left();
    }

    lemma ProgressSays(t: Todo, undecoded: int, left: seq<byte>, data: seq<byte>)
      requires (rbuf != null ==> rbuf.Valid()) && Progress(t, undecoded, left, data)
      ensures data + Left() == left
    {
    }

    // What the body was when it has been read to its end.
    ghost predicate Complete(t: Todo, undecoded: int, left: seq<byte>, data: seq<byte>)
      reads reader, reader.stream
    {
      var m := TrailerWithin(undecoded - |reader.stream.rest|, t);
      0 <= m <= |t.trailer| && data == left + Echo(t, m)
    }

    /** One call of those that read the body; `data` came out before it. */
    method ReadOnce(ptr: array<byte>, size: nat, ghost t: Todo, ghost undecoded: int, ghost left: seq<byte>, ghost data: seq<byte>)
      returns (ret: int)
      requires Valid() && ptr.Length > size && (rbuf != null ==> ptr != rbuf.buffer)
      requires reader.chunked_transfer && !reader.eof
      requires !reader.spot.wrong ==>
                 Progress(t, undecoded, left, data) && t.last == reader.spot.todo.last && t.trailer == reader.spot.todo.trailer
      modifies this`rbuf, reader, reader.stream, rbuf, ptr
      ensures reader.Valid() && (rbuf != null ==> rbuf.Valid()) && (ret >= 0 ==> Valid())
      ensures ret <= size && reader.chunked_transfer && (ret < 0 ==> !reader.eof)
      ensures (rbuf == old(rbuf) && rbuf != null && rbuf.cur > 0) || rbuf == null
      ensures Went(size, old(reader.spot), old(reader.events), old(reader.stream.portions),
                   reader.spot, reader.events, reader.stream.portions)
      ensures !reader.spot.wrong && ret >= 0 ==>
                && t.last == reader.spot.todo.last && t.trailer == reader.spot.todo.trailer
                && if reader.eof then Complete(t, undecoded, left, data + ptr[..ret])
                   else if ret > 0 then Progress(t, undecoded, left, data + ptr[..ret])
                   else data + Left() == left
      ensures !reader.spot.wrong && ret < 0 ==>
                && data <= left
                && reader.Failed(|reader.events| - |old(reader.events)| + old(reader.read_ref_cnt), old(reader.stream.errors), size)
      ensures ret >= 0 ==> reader.read_ref_cnt == old(reader.read_ref_cnt)
      ensures reader.stream.errors >= old(reader.stream.errors)
      ensures !reader.spot.wrong && ret == 0 && !reader.eof ==>
                size <= 1 || reader.stream.rest == [] || reader.chunk_size > 0 || old(rbuf != null && rbuf.cur == 0)
    {
      hide Went, PayloadOf, WireOf, Echo, HeaderOnly, Delivered, Progress, Complete, Balanced, HasHeader;
      ghost var before, undecoded1, was := Buffered(), reader.Undecoded(), rbuf;
      ghost var spot1, events1, portions1 := reader.spot, reader.events, reader.stream.portions;
      ghost var right := !reader.spot.wrong;
      if right {
        Progressed(t, undecoded, left, data);
      }
      ret := GetNextFileChunk(ptr, size);
      WentKeepsLast(size, spot1, events1, portions1, reader.spot, reader.events, reader.stream.portions);
      WrongStays(size, spot1, events1, portions1, reader.spot, reader.events, reader.stream.portions);
      if !reader.spot.wrong && ret >= 0 {
        assert ptr[..size][..ret] == ptr[..ret];
        if was != null {
          AfterBuffered(t, undecoded, left, data, before, ptr[..ret]);
        } else {
          AfterDecoder(size, t, undecoded, left, data, spot1, undecoded1, ptr[..size], ret);
        }
      }
    }

    lemma Progressed(t: Todo, undecoded: int, left: seq<byte>, data: seq<byte>)
      requires (rbuf != null ==> rbuf.Valid()) && Progress(t, undecoded, left, data)
      ensures data + Left() == left && data <= left && Balanced(t, undecoded, reader.spot.todo, |reader.Undecoded()|)
    {
    }

    // The bytes came from the line buffer.
    lemma AfterBuffered(t: Todo, undecoded: int, left: seq<byte>, data: seq<byte>, before: seq<byte>, out: seq<byte>)
      requires (rbuf != null ==> rbuf.Valid()) && before == out + Buffered()
      requires data + (before + PayloadOf(reader.spot.todo)) == left
      requires Balanced(t, undecoded, reader.spot.todo, |reader.Undecoded()|)
      ensures Progress(t, undecoded, left, data + out) && (out == [] ==> data + Left() == left)
    {
      hide PayloadOf, Balanced;
      Regroup(out, Buffered(), PayloadOf(reader.spot.todo));
      Regroup(data, out, Left());
    }

    // The bytes came from the decoder.
    lemma AfterDecoder(size: nat, t: Todo, undecoded: int, left: seq<byte>, data: seq<byte>,
                       was: Spot, undecoded1: seq<byte>, buffer: seq<byte>, ret: nat)
      requires rbuf == null && reader.HandedOut(size, was, undecoded1, buffer, ret)
      requires data + ([] + PayloadOf(was.todo)) == left && Balanced(t, undecoded, was.todo, |undecoded1|)
      requires t.last == was.todo.last && t.trailer == was.todo.trailer
      ensures ret <= |buffer|
      ensures reader.eof ==> Complete(t, undecoded, left, data + buffer[..ret])
      ensures !reader.eof ==> data + (buffer[..ret] + Left()) == left
      ensures !reader.eof && ret > 0 ==> Progress(t, undecoded, left, data + buffer[..ret])
      ensures !reader.eof && ret == 0 ==>
                data + Left() == left && (size <= 1 || reader.stream.rest == [] || reader.chunk_size > 0)
    {
      hide PayloadOf, Echo, HeaderOnly, WireOf;
      var out := buffer[..ret];
      assert [] + PayloadOf(was.todo) == PayloadOf(was.todo) && [] + PayloadOf(reader.spot.todo) == PayloadOf(reader.spot.todo);
      if reader.eof {
        var m := TrailerWithin(undecoded - |reader.stream.rest|, t);
        SameEcho(t, was.todo, m);
        Regroup(data, PayloadOf(was.todo), Echo(t, m));
        Regroup(data, out, []);
      } else {
        Regroup(data, out, Left());
      }
    }

    // One call more, after those that have brought `data` since the first of these spots.
    method ReadMore(ptr: array<byte>, size: nat, data: seq<byte>, ghost undecoded: int, ghost left: seq<byte>,
                    ghost was: Spot, ghost e: seq<Event>, ghost p: seq<nat>) returns (ret: int, data': seq<byte>)
      requires Valid() && ptr.Length > size && (rbuf != null ==> ptr != rbuf.buffer)
      requires reader.chunked_transfer && !reader.eof
      requires Went(size, was, e, p, reader.spot, reader.events, reader.stream.portions)
      requires !reader.spot.wrong ==> Progress(was.todo, undecoded, left, data)
      modifies this`rbuf, reader, reader.stream, rbuf, ptr
      ensures reader.Valid() && (rbuf != null ==> rbuf.Valid()) && (ret >= 0 ==> Valid())
      ensures reader.chunked_transfer && (ret < 0 ==> !reader.eof) && (rbuf == old(rbuf) || rbuf == null)
      ensures rbuf != null ==> rbuf.cur > 0
      ensures Went(size, was, e, p, reader.spot, reader.events, reader.stream.portions)
      ensures if ret <= 0 then data' == data else |data'| > |data|
      ensures !reader.spot.wrong && ret >= 0 ==>
                if reader.eof then Complete(was.todo, undecoded, left, data') else data' + Left() == left
      ensures !reader.spot.wrong && ret > 0 && !reader.eof ==> Progress(was.todo, undecoded, left, data')
      ensures !reader.spot.wrong && ret < 0 ==>
                && data <= left
                && reader.Failed(|reader.events| - |old(reader.events)| + old(reader.read_ref_cnt), old(reader.stream.errors), size)
      ensures !reader.spot.wrong && ret == 0 && !reader.eof ==>
                size <= 1 || reader.stream.rest == [] || reader.chunk_size > 0 || old(rbuf != null && rbuf.cur == 0)
      ensures ret >= 0 ==> reader.read_ref_cnt == old(reader.read_ref_cnt)
      ensures reader.stream.errors >= old(reader.stream.errors) && |e| <= |old(reader.events)| <= |reader.events|
    {
      hide Went, PayloadOf, WireOf, Echo, Progress, Balanced, HasHeader, Complete;
      ghost var spot1, events1, portions1 := reader.spot, reader.events, reader.stream.portions;
      WentKeepsLast(size, was, e, p, spot1, events1, portions1);
      ret := ReadOnce(ptr, size, was.todo, undecoded, left, data);
      WentOn(size, was, e, p, spot1, events1, portions1, reader.spot, reader.events, reader.stream.portions);
      data' := if ret < 0 then data else data + ptr[..ret];
      if !reader.eof && !reader.spot.wrong && ret > 0 {
        ProgressSays(was.todo, undecoded, left, data');
      }
    }

    /**
     * Calls until an error, a 0, the end of the body or `calls` calls. What came out
     * is a prefix of the payload, and at the end of the body all of it, followed by
     * as much of the last chunk's header as there were trailer bytes in the buffer:
     * exactly the payload if and only if there were none. All this unless a pass met
     * a buffer that ended exactly with a chunk's payload, which cannot be unless some
     * chunk fits the buffer.
     */
    method ReadBody(ptr: array<byte>, size: nat, calls: nat) returns (data: seq<byte>, last: int)
      requires Valid() && ptr.Length > size && (rbuf != null ==> ptr != rbuf.buffer)
      requires reader.chunked_transfer && !reader.eof
      modifies this`rbuf, reader, reader.stream, rbuf, ptr
      ensures reader.Valid() && (rbuf != null ==> rbuf.Valid())
      ensures Went(size, old(reader.spot), old(reader.events), old(reader.stream.portions),
                   reader.spot, reader.events, reader.stream.portions)
      ensures !old(reader.spot).wrong && !SomeChunkFits(old(reader.spot).todo.chunks, size) ==> !reader.spot.wrong
      ensures !reader.spot.wrong && reader.eof ==>
                var t := old(reader.spot).todo;
                var m := TrailerWithin(|old(reader.Undecoded())| - |reader.stream.rest|, t);
                && 0 <= m <= |t.trailer| && data == old(Left()) + Echo(t, m)
                && (data == old(Left()) <==> m == 0)
      ensures !reader.spot.wrong && !reader.eof ==> if last < 0 then data <= old(Left()) else data + Left() == old(Left())
      // It stopped for a reason.
      ensures last < 0 && !reader.spot.wrong ==>
                || reader.stream.errors > old(reader.stream.errors)
                || |reader.Saved()| > size
                || (reader.extra.Some? && !HasHeader(reader.extra.value)
                    && |reader.events| - |old(reader.events)| + old(reader.read_ref_cnt) >= 3)
      ensures last > 0 && !reader.eof ==> |data| >= calls
      ensures last == 0 && !reader.eof && !reader.spot.wrong ==>
                size <= 1 || reader.stream.rest == [] || reader.chunk_size > 0 || old(rbuf != null && rbuf.cur == 0)
    {
      hide Went, PayloadOf, WireOf, Echo, SomeChunkFits, Progress, Balanced, HasHeader;
      data, last := [], 1;
      ghost var buf := rbuf;
      ghost var spot0, events0, portions0 := reader.spot, reader.events, reader.stream.portions;
      ghost var undecoded, left := |reader.Undecoded()|, Left();
      WentNowhere(size, spot0, events0, portions0);
      ProgressStarts();
      ProgressSays(spot0.todo, undecoded, left, data);
      for k := 0 to calls
        invariant Valid() && reader.chunked_transfer && !reader.eof && (rbuf == buf || rbuf == null)
        invariant Went(size, spot0, events0, portions0, reader.spot, reader.events, reader.stream.portions)
        invariant reader.read_ref_cnt == old(reader.read_ref_cnt) && |reader.events| >= |events0|
        invariant reader.stream.errors >= old(reader.stream.errors)
        invariant !reader.spot.wrong ==> Progress(spot0.todo, undecoded, left, data) && data + Left() == left
        invariant last > 0 && |data| >= k
        invariant rbuf != null && rbuf.cur == 0 ==> old(rbuf != null && rbuf.cur == 0)
      {
        last, data := ReadMore(ptr, size, data, undecoded, left, spot0, events0, portions0);
        if last <= 0 || reader.eof {
          break;
        }
      }
      NoneFitsWentRight(size, spot0, events0, portions0, reader.spot, reader.events, reader.stream.portions);
    }
  }

  lemma NoneFitsWentRight(size: nat, s: Spot, e: seq<Event>, r: seq<nat>, s': Spot, e': seq<Event>, r': seq<nat>)
    requires Went(size, s, e, r, s', e', r')
    ensures !s.wrong && !SomeChunkFits(s.todo.chunks, size) ==> !s'.wrong
  {
    if !s.wrong && !SomeChunkFits(s.todo.chunks, size) {
      NoneFitsGoesRight(s, e'[|e|..], size);
    }
  }

  lemma {:induction false} TodoAfterKeepsLast(n: nat, t: Todo)
    ensures TodoAfter(n, t).last == t.last && TodoAfter(n, t).trailer == t.trailer
    decreases |t.chunks|
  {
    if t.chunks != [] {
      var c := t.chunks[0];
      var h := |HeaderBytes(c.header)|;
      if n >= h && n - h >= |c.payload| {
        TodoAfterKeepsLast(n - h - |c.payload|, t.(chunks := t.chunks[1..]));
      }
    }
  }

  lemma {:induction false} RunKeepsLast(s: Spot, events: seq<Event>)
    ensures Run(s, events).todo.last == s.todo.last && Run(s, events).todo.trailer == s.todo.trailer
  {
    if events != [] {
      var n := |events| - 1;
      RunKeepsLast(s, events[..n]);
      var before := Run(s, events[..n]);
      TodoAfterKeepsLast(before.saved + BytesOf(events[n]), before.todo);
    }
  }

  lemma WentKeepsLast(size: nat, s: Spot, e: seq<Event>, r: seq<nat>, s': Spot, e': seq<Event>, r': seq<nat>)
    requires Went(size, s, e, r, s', e', r')
    ensures s'.todo.last == s.todo.last && s'.todo.trailer == s.todo.trailer
  {
    RunKeepsLast(s, e'[|e|..]);
  }

  lemma TodoSetUp(got: seq<byte>, payload: seq<byte>, body: Todo, kept: nat)
    requires ValidTodo(body) && body.head == [] && kept <= |payload| && got == payload[..kept]
    ensures var t := body.(head := payload[kept..]);
            && ValidTodo(t) && WireOf(t) == payload[kept..] + WireOf(body)
            && got + PayloadOf(t) == payload + PayloadOf(body)
  {
    assert payload == payload[..kept] + payload[kept..];
    Regroup(payload[..kept], payload[kept..], Payloads(body.chunks));
  }

  // How the bytes behind the first size line split into payload and what comes after it.
  lemma SplitSetUp(unread: seq<byte>, rest: seq<byte>, payload: seq<byte>, wire: seq<byte>, kept: nat)
    requires unread + rest <= payload + wire && kept == Min(|unread|, |payload|)
    ensures unread[..kept] == payload[..kept] && payload == unread[..kept] + payload[kept..]
    ensures unread[kept..] + rest <= payload[kept..] + wire
  {
    var whole, all := unread + rest, payload + wire;
    assert whole == all[..|whole|];
    assert unread[..kept] == whole[..kept] == all[..kept] == payload[..kept];
    assert unread[kept..] + rest == whole[kept..];
    assert payload[kept..] + wire == all[kept..];
    assert whole[kept..] == all[kept..][..|whole| - kept];
  }
}
