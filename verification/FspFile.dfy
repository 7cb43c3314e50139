/**
 * Buffered file reading and writing on top of the transaction. A file being
 * read knows which stretch of the server's file is left in its buffer; a file
 * being written knows which part of what was written is still only there.
 */
module FspFile {
  import opened Basics
  import opened Bytes
  import opened FspPacket
  import opened FspNetwork
  import opened FspSession

  function FullName(name: seq<byte>, password: Option<seq<byte>>): seq<byte> {
    name + match password { case Some(pw) => [10] + pw case None => [] } + [0]
  }

  /** Data that names a file: the name, perhaps a line feed and the password, and a NUL. */
  predicate Naming(data: seq<byte>, name: seq<byte>, password: Option<seq<byte>>) {
    var n, last := |name|, |data| - 1;
    && n <= last && data[..n] == name && data[last] == 0
    && match password
       case None => last == n
       case Some(pw) => last == n + 1 + |pw| && data[n] == 10 && data[n + 1..last] == pw
  }

  lemma FullNameIsNaming(name: seq<byte>, password: Option<seq<byte>>)
    ensures Naming(FullName(name, password), name, password)
  {
  }

  /** What was sent since is requests of this kind for this file. */
  ghost predicate AsksFor(before: set<Packet>, sent: set<Packet>, cmd: byte, name: seq<byte>, password: Option<seq<byte>>) {
    && before <= sent
    && forall r | r in sent && r !in before :: r.cmd == cmd && Naming(r.data, name, password) && r.extra == []
  }

  lemma AsksOn(a: set<Packet>, b: set<Packet>, c: set<Packet>, cmd: byte, name: seq<byte>, password: Option<seq<byte>>)
    requires AsksFor(a, b, cmd, name, password) && AsksFor(b, c, cmd, name, password)
    ensures AsksFor(a, c, cmd, name, password)
  {
  }

  lemma AsksNothing(sent: set<Packet>, cmd: byte, name: seq<byte>, password: Option<seq<byte>>)
    ensures AsksFor(sent, sent, cmd, name, password)
  {
  }

  /** The first `done` bytes of the destination are the file's from `start` on, and the rest is as it was. */
  predicate HandedOver(file: seq<byte>, start: int, dest: seq<byte>, was: seq<byte>, done: nat) {
    && done <= |dest| == |was|
    && (done > 0 ==> 0 <= start && start + done <= |file|)
    && forall i | 0 <= i < |dest| :: dest[i] == if i < done then file[start + i] else was[i]
  }

  lemma MoreHandedOver(file: seq<byte>, start: int, before: seq<byte>, was: seq<byte>, at: nat, dest: seq<byte>, n: nat)
    requires HandedOver(file, start, before, was, at) && at + n <= |dest| == |before|
    requires n > 0 ==> 0 <= start && start + at + n <= |file|
    requires forall i | 0 <= i < |dest| :: dest[i] == if at <= i < at + n then file[start + i] else before[i]
    ensures HandedOver(file, start, dest, was, at + n)
  {
  }

  lemma NothingHandedOver(file: seq<byte>, start: int, was: seq<byte>)
    ensures HandedOver(file, start, was, was, 0)
  {
  }

  predicate NameFits(name: seq<byte>, password: Option<seq<byte>>) {
    |name| < SPACE - 1 && (password.Some? ==> |name| + 1 + |password.value| < SPACE - 1)
  }

  /** buildfilename: the name, and the password if there is one, as the request's data. */
  method BuildFilename(s: Session, out: Pkt, name: seq<byte>) returns (rc: int)
    requires out.buf.Length == SPACE
    modifies out`len, out.buf
    ensures rc == 0 <==> NameFits(name, s.password)
    ensures rc == 0 <==> |name| <= 1022 && (s.password.Some? ==> |name| + |s.password.value| <= 1021)
    ensures rc == 0 || rc == -1
    ensures rc == 0 ==> out.len == |FullName(name, s.password)| <= SPACE && out.buf[..out.len] == FullName(name, s.password)
  {
    if |name| >= SPACE - 1 {
      return -1;
    }
    var text := name + [0];
    forall i | 0 <= i < |text| {
      out.buf[i] := text[i];
    }
    out.len := |name|;
    assert out.buf[..|text|] == text;
    if s.password.Some? {
      var pw := s.password.value;
      out.buf[out.len] := 10;
      out.len := out.len + 1;
      if out.len + |pw| >= SPACE - 1 {
        return -1;
      }
      text := pw + [0];
      var at: nat := out.len;
      assert out.buf[..at] == name + [10];
      forall i | 0 <= i < |text| {
        out.buf[at + i] := text[i];
      }
      assert out.buf[..at] == name + [10];
      assert out.buf[at..at + |text|] == text;
      assert out.buf[..at + |text|] == name + [10] + pw + [0];
      out.len := out.len + |pw|;
    }
    out.len := out.len + 1;
    return 0;
  }

  class File {
    const inp: Pkt
    const out: Pkt
    const s: Session
    const name: seq<byte>
    const writing: bool
    var eof: bool
    var err: bool
    var bufpos: int
    var pos: uint32
    // What was copied into the buffer so far, for a file being written.
    ghost var content: seq<byte>

    // A new handle, with all fields zero.
    constructor (s: Session, name: seq<byte>, writing: bool)
      ensures this.s == s && this.name == name && this.writing == writing
      ensures !eof && !err && bufpos == 0 && pos == 0 && content == []
      ensures fresh(inp) && fresh(inp.buf) && fresh(out) && fresh(out.buf)
      ensures inp != out && inp.buf != out.buf && inp.buf.Length == SPACE && out.buf.Length == SPACE
      ensures out.len == 0 && out.xlen == 0 && out.pos == 0
    {
      this.s, this.name, this.writing := s, name, writing;
      var a := new Pkt();
      var b := new Pkt();
      inp, out := a, b;
      eof, err, bufpos, pos, content := false, false, 0, 0, [];
    }

    ghost predicate Ready()
      reads this, inp, out, s, s.net, s.lock
    {
      && inp != out && inp.buf != out.buf && inp.buf.Length == SPACE && out.buf.Length == SPACE
      && s.Valid() && s.lock.semaphore > 0
      && 0 <= bufpos <= SPACE
    }

    // ----- reading -----

    ghost function Source(): seq<byte> {
      s.net.srv.file
    }

    /** Where in the server's file the next byte to be handed out lies. */
    ghost function Offset(): int
      reads this
    {
      pos - (SPACE - bufpos)
    }

    ghost predicate Reading()
      reads this, inp, inp.buf, out, out.buf, s, s.net, s.lock
    {
      && Ready() && !writing
      && out.cmd == CC_GET_FILE && out.Fits() && out.xlen == 0 && Naming(out.buf[..out.len], name, s.password)
      && (bufpos < SPACE ==> 0 <= Offset() && pos <= |Source()| && inp.buf[bufpos..] == Source()[Offset()..pos])
      && (eof ==> Offset() >= |Source()|)
    }

    // ----- writing -----

    /** Every UP_LOAD sent so far lies below `pos`, or is a failed attempt to send the buffer. */
    ghost predicate UploadsBelow()
      reads this, s, s.net
    {
      forall req | req in s.net.w.sent && req.cmd == CC_UP_LOAD ::
        req.pos < pos || (req.pos == pos && |req.data| == bufpos && err)
    }

    ghost predicate Writing()
      reads this, inp, out, out.buf, s, s.net, s.lock
    {
      && Ready() && writing && !eof
      && out.cmd == CC_UP_LOAD && out.xlen == 0
      && pos + bufpos == |content| < 0x1_0000_0000
      && out.buf[..bufpos] == content[pos..]
      && UploadSafe(s.net.w, content) && NoInstall(s.net.w)
      && Covers(s.net.w.area, 0, pos)
      && UploadsBelow()
    }

    /** Only whole buffers went out so far, as they do without a flush in between. */
    ghost predicate Unflushed()
      reads this, s, s.net
    {
      && !err && (pos == 0 || pos >= SPACE)
      && (forall req | req in s.net.w.sent && req.cmd == CC_UP_LOAD :: |req.data| == SPACE)
      && (pos > 0 ==> SomePiece(s.net.w, SPACE))
    }

    // The transaction just now was answered with an error.
    ghost predicate Refused()
      reads s, s.net, inp, inp.buf, out, out.buf
    {
      && inp.cmd == CC_ERR && inp.Fits() && out.Fits()
      && Matches(s.sq, out.View(), inp.View()) && inp.View() in s.net.w.inbox
    }

    // Asks for the block at `pos`, with nothing left in the buffer.
    method Fetch() returns (ok: bool)
      requires Reading() && bufpos == SPACE
      modifies this`err, inp, inp.buf, out`pos, out`key, out`sq, s, s.lock, s.net
      ensures Reading() && (if ok then err == old(err) else err)
      ensures AsksFor(old(s.net.w.sent), s.net.w.sent, CC_GET_FILE, name, s.password)
      ensures forall r | r in s.net.w.sent && r !in old(s.net.w.sent) :: r.pos == pos
      ensures ok ==> inp.Fits() && IsPieceAt(Source(), pos, inp.View().data)
      ensures old(s.net.log) <= s.net.log && s.net.breaks >= old(s.net.breaks)
      ensures s.misses == old(s.misses) + if ok then 0 else 1
      ensures !ok ==> s.GaveUp(|old(s.net.log)|, old(s.net.breaks)) || (s.trips == old(s.trips) + 1 && Refused())
    {
      hide FspNetwork.Extends, FspNetwork.Faithful, FspSession.Attempts, FspSession.Matches, FspSession.WellPaced;
      hide FspSession.Concluded, FspSession.SendsOnly, Naming;
      ghost var before, req := s.net.trace, out.View();
      out.pos := pos;
      req := out.View();
      var rc := s.Transaction(out, inp);
      RequestSent(s.net.srv, before, s.net.trace, req.(key := out.key), s.sq);
      ok := rc == 0 && inp.cmd != CC_ERR;
      if !ok {
        err := true;
        return;
      }
      PieceAnswered(s, out.View(), inp.View());
    }

    // Fetches the block at `pos` into an empty buffer.
    method Fill() returns (ok: bool)
      requires Reading() && bufpos == SPACE
      modifies this`err, this`bufpos, this`pos, inp, inp.buf, out`pos, out`key, out`sq, s, s.lock, s.net
      ensures Reading() && Offset() == old(Offset())
      ensures AsksFor(old(s.net.w.sent), s.net.w.sent, CC_GET_FILE, name, s.password)
      ensures ok ==> err == old(err) && (bufpos == SPACE ==> Offset() >= |Source()|)
      ensures old(s.net.log) <= s.net.log && s.net.breaks >= old(s.net.breaks)
      ensures !ok ==> err && bufpos == SPACE
      ensures s.misses == old(s.misses) + if ok then 0 else 1
      ensures !ok ==> s.GaveUp(|old(s.net.log)|, old(s.net.breaks)) || (s.trips == old(s.trips) + 1 && Refused())
    {
      hide FspNetwork.Faithful, Refused, AsksFor, Naming, FspSession.Session.GaveUp;
      ok := Fetch();
      if !ok {
        return;
      }
      ghost var piece := inp.View().data;
      assert inp.len == |piece|;
      bufpos := SPACE - inp.len;
      if bufpos > 0 {
        inp.MoveUp(bufpos, inp.len);
      }
      assert inp.buf[bufpos..] == piece;
      pos := pos + inp.len;
    }

    // Copies the next n bytes of the buffer to `dest`.
    method HandOut(dest: array<byte>, at: nat, n: nat, ghost start: int, ghost was: seq<byte>)
      requires Reading() && !eof && bufpos < SPACE && n <= SPACE - bufpos && at + n <= dest.Length
      requires dest != inp.buf && dest != out.buf
      requires Offset() == start + at && HandedOver(Source(), start, dest[..], was, at) && (at > 0 ==> start >= 0)
      modifies this`bufpos, dest
      ensures Reading() && bufpos == old(bufpos) + n
      ensures HandedOver(Source(), start, dest[..], was, at + n)
      ensures n > 0 ==> 0 <= start && start + at + n <= |Source()|
    {
      hide HandedOver;
      ghost var tail, before := inp.buf[bufpos..], dest[..];
      assert forall i | 0 <= i < n :: inp.buf[bufpos + i] == tail[i];
      inp.Copy(dest, at, bufpos, n);
      bufpos := bufpos + n;
      assert inp.buf[bufpos..] == tail[n..];
      forall i | at <= i < at + n
        ensures dest[i] == Source()[start + i]
      {
        assert dest[i] == tail[i - at];
      }
      MoreHandedOver(Source(), start, before, was, at, dest[..], n);
    }

    /** How many bytes the server's file has from this offset on. */
    ghost function Available(offset: int): nat {
      if offset < |Source()| then |Source()| - offset else 0
    }

    // The loop of fsp_fread; `whole` says that it ended by serving the whole request, `failed` that a fetch failed.
    method ReadBytes(dest: array<byte>, wanted: nat) returns (done: nat, whole: bool, ghost failed: bool)
      requires Reading() && dest.Length >= wanted && !eof
      requires dest != inp.buf && dest != out.buf
      modifies this`err, this`eof, this`bufpos, this`pos, inp, inp.buf, out`pos, out`key, out`sq, s, s.lock, s.net, dest
      ensures Reading() && Offset() == old(Offset()) + done
      ensures AsksFor(old(s.net.w.sent), s.net.w.sent, CC_GET_FILE, name, s.password)
      ensures done <= wanted && (whole ==> done == wanted)
      ensures HandedOver(Source(), old(Offset()), dest[..], old(dest[..]), done)
      ensures if failed then err else err == old(err)
      ensures s.misses == old(s.misses) + if failed then 1 else 0
      ensures !failed ==> done == Min(wanted, Available(old(Offset())))
      ensures done < wanted && !failed ==> eof
    {
      hide FspSession.Session.Valid, FspSession.Session.GaveUp, FspPacket.Pkt.Fits, Refused, AsksFor, Naming, HandedOver;
      AsksNothing(s.net.w.sent, CC_GET_FILE, name, s.password);
      ghost var start, was := Offset(), dest[..];
      NothingHandedOver(Source(), start, was);
      var total := wanted;
      done := 0;
      while true
        invariant Reading() && Offset() == old(Offset()) + done && !eof && err == old(err) && 0 <= total == wanted - done
        invariant HandedOver(Source(), start, dest[..], was, done)
        invariant done > 0 ==> 0 <= start && start + done <= |Source()|
        invariant s.misses == old(s.misses) && AsksFor(old(s.net.w.sent), s.net.w.sent, CC_GET_FILE, name, s.password)
        decreases total, if bufpos < SPACE then 0 else 1
      {
        if bufpos >= SPACE {
          ghost var before := s.net.w.sent;
          var ok := Fill();
          AsksOn(old(s.net.w.sent), before, s.net.w.sent, CC_GET_FILE, name, s.password);
          if !ok {
            return done, false, true;
          }
        }
        var havebytes := SPACE - bufpos;
        if havebytes == 0 {
          eof := true;
          return done, false, false;
        }
        if havebytes <= total {
          HandOut(dest, done, havebytes, start, was);
          done, total := done + havebytes, total - havebytes;
        } else {
          HandOut(dest, done, total, start, was);
          done := done + total;
          return done, true, false;
        }
      }
    }

    /**
     * fsp_fread: `moved` bytes of the server's file are handed out, and the next
     * call goes on right behind them.
     */
    method FRead(dest: array<byte>, size: nat, count: nat) returns (r: nat, ghost moved: nat, ghost failed: bool)
      requires Reading() && size > 0 && dest.Length >= count * size
      requires dest != inp.buf && dest != out.buf
      modifies this`err, this`eof, this`bufpos, this`pos, inp, inp.buf, out`pos, out`key, out`sq, s, s.lock, s.net, dest
      ensures Reading() && Offset() == old(Offset()) + moved
      ensures AsksFor(old(s.net.w.sent), s.net.w.sent, CC_GET_FILE, name, s.password)
      ensures moved <= count * size && r == moved / size
      ensures moved > 0 ==> 0 <= old(Offset()) && Offset() <= |Source()|
      ensures forall i | 0 <= i < moved :: dest[i] == Source()[old(Offset()) + i]
      ensures forall i | moved <= i < dest.Length :: dest[i] == old(dest[i])
      // Unless a fetch of this call failed, all that was asked for, or all that the file still has.
      ensures if failed then err else err == old(err)
      ensures s.misses == old(s.misses) + if failed then 1 else 0
      ensures !failed ==> moved == Min(count * size, Available(old(Offset())))
    {
      assert eof ==> Offset() >= |Source()|;
      assert eof ==> Available(Offset()) == 0;
      hide Reading, Ready, Source, Available, FspSession.Session.Valid;
      var total := count * size;
      NothingDone(size);
      AsksNothing(s.net.w.sent, CC_GET_FILE, name, s.password);
      if eof {
        return 0, 0, false;
      }
      var done, whole;
      done, whole, failed := ReadBytes(dest, total);
      WholeItems(count, size);
      if whole {
        return count, done, failed;
      }
      return done / size, done, failed;
    }

    /** fsp_fseek with SEEK_SET on a file being read. */
    method SeekSet(offset: int) returns (rc: int)
      requires Reading()
      modifies this`pos, this`eof, this`bufpos
      ensures rc == 0 && Reading() && Offset() == offset % 0x1_0000_0000 && !eof
    {
      pos := offset % 0x1_0000_0000;
      eof := false;
      Purge();
      return 0;
    }

    method Purge()
      modifies this`bufpos
      ensures bufpos == if writing then 0 else SPACE
    {
      bufpos := if writing then 0 else SPACE;
    }

    // The transaction that sends the buffer as one UP_LOAD at `pos`.
    method SendBuffer() returns (ok: bool)
      requires Writing() && bufpos > 0 && out.len == bufpos
      modifies inp, inp.buf, out`pos, out`key, out`sq, s, s.lock, s.net
      ensures Ready()
      ensures UploadSafe(s.net.w, content) && NoInstall(s.net.w) && old(s.net.w.area).Keys <= s.net.w.area.Keys
      ensures old(s.net.w.sent) <= s.net.w.sent
      ensures forall r | r in s.net.w.sent && r !in old(s.net.w.sent) ::
                r.cmd == CC_UP_LOAD && r.pos == pos && r.data == out.buf[..bufpos]
      ensures ok ==> Covers(s.net.w.area, pos, bufpos) && SomePiece(s.net.w, bufpos)
      ensures old(s.net.log) <= s.net.log && s.net.breaks >= old(s.net.breaks)
      ensures s.misses == old(s.misses) + if ok then 0 else 1
      ensures !ok ==> s.GaveUp(|old(s.net.log)|, old(s.net.breaks)) || (s.trips == old(s.trips) + 1 && Refused())
    {
      hide FspNetwork.Extends, FspNetwork.UploadSafe, FspNetwork.NoInstall, FspNetwork.Faithful;
      hide FspSession.Attempts, FspSession.WellPaced, FspSession.PaceOf, FspSession.Session.PaceSince, SomePiece;
      hide FspSession.Concluded, FspSession.SendsOnly, FspSession.Session.GaveUp;
      out.pos := pos;
      ghost var before := s.net.trace;
      ghost var req := out.View();
      var rc := s.Transaction(out, inp);
      UploadSent(s.net.srv, before, s.net.trace, content, req.(key := out.key), s.sq);
      RequestSent(s.net.srv, before, s.net.trace, req.(key := out.key), s.sq);
      ok := rc == 0 && inp.cmd != CC_ERR;
    }

    // Sends the buffer, and empties it when it was acknowledged.
    method Upload() returns (ok: bool)
      requires Writing() && bufpos > 0 && out.len == bufpos
      modifies this`err, this`bufpos, this`pos, inp, inp.buf, out`pos, out`key, out`sq, s, s.lock, s.net
      ensures Writing()
      ensures ok ==> bufpos == 0 && pos == old(pos) + old(bufpos) && err == old(err)
      ensures !ok ==> err && bufpos == old(bufpos) && pos == old(pos)
      ensures old(s.net.w.sent) <= s.net.w.sent
      ensures forall r | r in s.net.w.sent && r !in old(s.net.w.sent) :: r.cmd == CC_UP_LOAD && |r.data| == old(bufpos)
      ensures ok ==> SomePiece(s.net.w, old(bufpos))
      ensures old(s.net.log) <= s.net.log && s.net.breaks >= old(s.net.breaks)
      ensures s.misses == old(s.misses) + if ok then 0 else 1
      ensures !ok ==> s.GaveUp(|old(s.net.log)|, old(s.net.breaks)) || (s.trips == old(s.trips) + 1 && Refused())
    {
      hide FspNetwork.UploadSafe, FspNetwork.NoInstall, SomePiece, FspSession.Session.GaveUp, FspSession.Session.Valid, Refused;
      ok := SendBuffer();
      if !ok {
        err := true;
        return;
      }
      pos := (pos + out.len) % 0x1_0000_0000;
      bufpos := 0;
    }

    // Copies a piece of what is being written behind what the buffer holds.
    method TakeIn(piece: seq<byte>)
      requires Writing() && !err && |piece| <= SPACE - bufpos && |content| + |piece| < 0x1_0000_0000
      modifies this`bufpos, this`content, out.buf
      ensures Writing() && bufpos == old(bufpos) + |piece|
      ensures content == old(content) + piece
    {
      out.Put(bufpos, piece);
      ContentGrows(s.net.srv, s.net.w, content, piece);
      assert (content + piece)[pos..] == content[pos..] + piece;
      assert out.buf[..bufpos + |piece|] == out.buf[..bufpos] + out.buf[bufpos..bufpos + |piece|];
      bufpos := bufpos + |piece|;
      content := content + piece;
    }

    // Copies the next n bytes of `source`, of which `at` are taken.
    method TakeFrom(source: seq<byte>, at: nat, n: nat, ghost was: seq<byte>)
      requires Writing() && !err && at + n <= |source| && n <= SPACE - bufpos
      requires content == was + source[..at] && |was| + |source| < 0x1_0000_0000
      modifies this`bufpos, this`content, out.buf
      ensures Writing() && bufpos == old(bufpos) + n
      ensures content == was + source[..at + n]
    {
      hide FspNetwork.UploadSafe, FspNetwork.NoInstall, FspNetwork.Covers, UploadsBelow, FspSession.Session.Valid;
      TakeIn(source[at..at + n]);
      SliceGrows(was, source, at, at + n);
    }

    // The loop of fsp_fwrite; `whole` says that it ended with everything taken in.
    method WriteBytes(source: seq<byte>) returns (done: nat, whole: bool, ghost taken: nat)
      requires Writing() && !err && out.len == SPACE && |content| + |source| < 0x1_0000_0000
      modifies this`err, this`bufpos, this`pos, this`content, inp, inp.buf, out`pos, out`key, out`sq, out.buf, s, s.lock, s.net
      ensures Writing() && taken <= |source| && content == old(content) + source[..taken]
      ensures whole ==> taken == |source| && !err && bufpos < SPACE && (old(Unflushed()) ==> Unflushed())
      // Bytes of earlier calls count as done as well when they go out.
      ensures !whole ==> err && done == old(bufpos) + taken - SPACE
      ensures s.misses == old(s.misses) + if whole then 0 else 1
    {
      hide FspNetwork.UploadSafe, FspNetwork.NoInstall, FspNetwork.Covers, UploadsBelow, FspSession.Session.Valid;
      hide FspSession.Session.GaveUp, Refused, SomePiece, FspNetwork.Holds;
      var total, at := |source|, 0;
      done := 0;
      while true
        invariant Writing() && !err && out.len == SPACE
        invariant 0 <= at <= |source| && total == |source| - at && content == old(content) + source[..at]
        invariant 0 <= done == old(bufpos) + at - bufpos
        invariant (old(Unflushed()) ==> Unflushed()) && s.misses == old(s.misses)
        decreases total, bufpos
      {
        if bufpos >= SPACE {
          var ok := Upload();
          if !ok {
            return done, false, at;
          }
          done := done + out.len;
        }
        var freebytes := SPACE - bufpos;
        if freebytes <= total {
          TakeFrom(source, at, freebytes, old(content));
          at, total := at + freebytes, total - freebytes;
        } else {
          TakeFrom(source, at, total, old(content));
          return done, true, at + total;
        }
      }
    }

    /**
     * fsp_fwrite: what of `source` got into the buffer is counted into `content`,
     * and a call that returns its full count took all of it.
     */
    method FWrite(source: seq<byte>, size: nat, count: nat) returns (r: nat, ghost taken: nat)
      requires Writing() && |source| == count * size && |content| + |source| < 0x1_0000_0000
      // With empty items and a full buffer a failed upload would divide by zero.
      requires size > 0 || bufpos < SPACE
      modifies this`err, this`bufpos, this`pos, this`content, inp, inp.buf, out, out.buf, s, s.lock, s.net
      ensures Writing() && taken <= |source| && content == old(content) + source[..taken]
      ensures r == count ==> taken == |source|
      // Full count, or the whole items among the bytes of this call and of earlier ones that went out.
      ensures !err ==> r == count
      ensures err && !old(err) && size > 0 ==> r == (old(bufpos) + taken - SPACE) / size
      ensures r != count ==> err
      // An error is that of an upload of this call, or of an earlier one.
      ensures s.misses == old(s.misses) + if err && !old(err) then 1 else 0
      ensures old(err) ==> r == 0 && taken == 0
      ensures size > 0 && r == count && old(!err && bufpos < SPACE) ==> !err && bufpos < SPACE && (old(Unflushed()) ==> Unflushed())
    {
      hide FspNetwork.UploadSafe, FspNetwork.NoInstall, FspNetwork.Covers, UploadsBelow, FspSession.Session.Valid;
      taken := 0;
      if eof || err {
        return 0, 0;
      }
      out.len := SPACE;
      var done, whole;
      done, whole, taken := WriteBytes(source);
      if whole {
        return count, taken;
      }
      DoneItems(done, count, size);
      return done / size, taken;
    }

    /** fsp_fflush on a file being written: after a 0 the server's upload area is the content, byte for byte. */
    method FFlush() returns (rc: int)
      requires Writing()
      modifies this`err, this`bufpos, this`pos, inp, inp.buf, out, out.buf, s, s.lock, s.net
      ensures Writing() && (rc == 0 || (rc == -1 && err))
      ensures s.misses == old(s.misses) + if rc == 0 then 0 else 1
      ensures rc == 0 ==> bufpos == 0 && pos == |content| && Holds(s.net.w.area, content)
      ensures rc == 0 && old(Unflushed()) ==> InPieces(s.net.w, content)
    {
      if eof || bufpos == 0 {
        return 0;
      }
      out.pos := pos;
      out.len := bufpos;
      var ok := Upload();
      return if ok then 0 else -1;
    }

    /**
     * fsp_fclose on a file being written: after a 0 the server made a file that is the
     * content. With whatever is still in flight it stays that file for ever if and only
     * if all of it went out in one piece.
     */
    method FClose() returns (rc: int)
      requires Writing()
      modifies this`err, this`bufpos, this`pos, inp, inp.buf, out, out.buf, s, s.lock, s.net
      ensures s.Valid() && s.lock.semaphore > 0
      ensures rc == 0 || rc == -1
      ensures rc == 0 <==> NameFits(name, s.password) && s.misses == old(s.misses)
      ensures forall r | r in s.net.w.sent && r.cmd == CC_INSTALL :: Naming(r.data, name, s.password) && r.extra == []
      ensures rc == 0 ==> InstalledFor(s.net.w, content)
      ensures rc == 0 && old(Unflushed()) ==> (WholeForEver(s.net.srv, s.net.w, content) <==> |content| <= SPACE)
    {
      hide UploadsBelow, Unflushed;
      rc := FFlush();
      if rc != 0 {
        return -1;
      }
      ghost var w := s.net.w;
      rc := Install(s, name, content);
      if rc == 0 && old(Unflushed()) {
        InPiecesStays(s.net.srv, w, s.net.w, content);
      }
    }
  }

  /** An UP_LOAD of so many bytes was sent. */
  ghost predicate SomePiece(w: World, n: nat) {
    exists req :: req in w.sent && req.cmd == CC_UP_LOAD && |req.data| == n
  }

  /** The content went out whole if it fits one UP_LOAD, and in parts if it does not. */
  ghost predicate InPieces(w: World, content: seq<byte>) {
    if |content| <= SPACE then NoPartInFlight(w, content)
    else exists part :: part in w.sent && part.cmd == CC_UP_LOAD && 0 < |part.data| < |content|
  }

  /** The content was made into a file by the first INSTALL that was carried out. */
  ghost predicate InstalledFor(w: World, content: seq<byte>) {
    UploadSafe(w, content) && w.installed != [] && Holds(w.installed[0], content)
  }

  lemma InPiecesStays(srv: Server, w: World, w': World, content: seq<byte>)
    requires InPieces(w, content) && w.sent <= w'.sent && UploadSafe(w', content)
    requires NoPartInFlight(w, content) ==> NoPartInFlight(w', content) && Whole(w', content)
    requires exists install :: install in w'.sent && install.cmd == CC_INSTALL
    ensures WholeForEver(srv, w', content) <==> |content| <= SPACE
  {
    hide UploadSafe;
    var install :| install in w'.sent && install.cmd == CC_INSTALL;
    InstalledStays(srv, w', content, install);
  }

  /** fsp_install with no timestamp. */
  method Install(s: Session, name: seq<byte>, ghost content: seq<byte>) returns (rc: int)
    requires s.Valid() && s.lock.semaphore > 0
    requires UploadSafe(s.net.w, content) && NoInstall(s.net.w) && Covers(s.net.w.area, 0, |content|)
    modifies s, s.lock, s.net
    ensures s.Valid() && s.lock.semaphore > 0
    ensures rc == 0 || rc == -1
    ensures rc == 0 <==> NameFits(name, s.password) && s.misses == old(s.misses)
    ensures rc == 0 ==> InstalledFor(s.net.w, content)
    ensures AsksFor(old(s.net.w.sent), s.net.w.sent, CC_INSTALL, name, s.password)
    ensures rc == 0 ==> exists install :: install in s.net.w.sent && install.cmd == CC_INSTALL
    ensures rc == 0 && old(NoPartInFlight(s.net.w, content)) ==> NoPartInFlight(s.net.w, content) && Whole(s.net.w, content)
  {
    hide FspNetwork.Extends, FspNetwork.Faithful, FspSession.Attempts, FspSession.WellPaced;
    hide FspNetwork.UploadSafe, FspNetwork.NoPartInFlight, FspNetwork.Whole, FspNetwork.Covers, FspNetwork.NoInstall;
    hide FspSession.Concluded, FspSession.SendsOnly, Naming, FullName;
    AsksNothing(s.net.w.sent, CC_INSTALL, name, s.password);
    var inp := new Pkt();
    var out := new Pkt();
    out.cmd, out.xlen, out.pos := CC_INSTALL, 0, 0;
    rc := BuildFilename(s, out, name);
    if rc != 0 {
      return -1;
    }
    ghost var before := s.net.trace;
    ghost var req := out.View();
    rc := s.Transaction(out, inp);
    InstallSent(s.net.srv, before, s.net.trace, content, req.(key := out.key), s.sq);
    RequestSent(s.net.srv, before, s.net.trace, req.(key := out.key), s.sq);
    FullNameIsNaming(name, s.password);
    if rc != 0 {
      return -1;
    }
    if inp.cmd == CC_ERR {
      return -1;
    }
    InstallAnswered(s.net.srv, s.net.w, inp.View());
  }

  // What a transaction adds to what was sent.
  lemma RequestSent(srv: Server, earlier: seq<World>, later: seq<World>, req: Packet, base: uint16)
    requires IsBase(base) && Extends(srv, earlier, later, Attempts(req, base))
    ensures var w, w' := earlier[|earlier| - 1], later[|later| - 1];
            && w.sent <= w'.sent
            && forall r | r in w'.sent && r !in w.sent ::
                 r.cmd == req.cmd && r.pos == req.pos && r.data == req.data && r.extra == req.extra
  {
    var run, batch := later[|earlier| - 1..], Attempts(req, base);
    assert run[0] == earlier[|earlier| - 1] && run[|run| - 1] == later[|later| - 1];
    RunSendsOnly(srv, run, batch);
  }

  // An answer to an INSTALL means that one was sent.
  lemma InstallAnswered(srv: Server, w: World, reply: Packet)
    requires Faithful(srv, w) && reply in w.inbox && reply.cmd == CC_INSTALL
    ensures exists install :: install in w.sent && install.cmd == CC_INSTALL
  {
    var asked :| asked in w.sent && Answers(srv, asked, reply);
  }

  /** What a transaction that sends the INSTALL does to the world. */
  lemma InstallSent(srv: Server, earlier: seq<World>, later: seq<World>, content: seq<byte>, req: Packet, base: uint16)
    requires IsBase(base) && Extends(srv, earlier, later, Attempts(req, base))
    requires UploadSafe(earlier[|earlier| - 1], content) && NoInstall(earlier[|earlier| - 1])
    requires Covers(earlier[|earlier| - 1].area, 0, |content|) && req.cmd == CC_INSTALL
    ensures var w, w' := earlier[|earlier| - 1], later[|later| - 1];
            && UploadSafe(w', content) && w.sent <= w'.sent
            && (forall r | r in w'.inbox && r.cmd == CC_INSTALL :: InstalledFor(w', content))
            && (NoPartInFlight(w, content) ==> NoPartInFlight(w', content))
            && (NoPartInFlight(w, content) && w'.installed != [] ==> Whole(w', content))
  {
    var w, w' := earlier[|earlier| - 1], later[|later| - 1];
    var run, batch := later[|earlier| - 1..], Attempts(req, base);
    assert run[0] == w && run[|run| - 1] == w';
    MaySendAttempts(w, content, req, base);
    RunKeepsUploadSafe(srv, run, content, batch);
    if NoPartInFlight(w, content) {
      RunKeepsWhole(srv, run, content, batch);
    }
  }

  lemma SliceGrows(before: seq<byte>, source: seq<byte>, i: nat, j: nat)
    requires i <= j <= |source|
    ensures before + source[..i] + source[i..j] == before + source[..j]
  {
    assert source[..i] + source[i..j] == source[..j];
  }

  lemma NothingDone(size: nat)
    requires size > 0
    ensures 0 / size == 0
  {
  }

  lemma {:induction false} WholeItems(count: nat, size: nat)
    requires size > 0
    ensures count * size / size == count
  {
    var x := count * size;
    var q := x / size;
    assert x == q * size + x % size;
    if q < count {
      MulGrows(q + 1, count, size);
    } else if q > count {
      MulGrows(count + 1, q, size);
    }
  }

  lemma DoneItems(done: nat, count: nat, size: nat)
    requires size > 0 && done <= count * size
    ensures 0 <= done / size <= count && (done / size == count ==> done == count * size)
  {
    var q := done / size;
    assert done == q * size + done % size;
    if q >= count {
      MulGrows(count, q, size);
      WholeItems(count, size);
    }
  }

  lemma MulGrows(a: nat, b: nat, n: nat)
    requires a <= b
    ensures a * n <= b * n
  {
  }

  lemma MaySendAttempts(w: World, content: seq<byte>, req: Packet, base: uint16)
    requires IsBase(base) && MaySend(w, content, req)
    ensures MaySendAll(w, content, Attempts(req, base))
    ensures forall p | p in Attempts(req, base) :: p.cmd == req.cmd && p.pos == req.pos && p.data == req.data
  {
    forall p | p in Attempts(req, base)
      ensures MaySend(w, content, p) && p.cmd == req.cmd && p.pos == req.pos && p.data == req.data
    {
      var k: nat :| k < 8 && p == Attempt(req, base, k);
      forall r | r in w.sent
        ensures SameStretch(r, p)
      {
        assert SameStretch(r, req);
      }
    }
  }

  /** What a transaction that sends one stretch of the content does to the world. */
  lemma UploadSent(srv: Server, earlier: seq<World>, later: seq<World>, content: seq<byte>, req: Packet, base: uint16)
    requires IsBase(base) && Extends(srv, earlier, later, Attempts(req, base))
    requires UploadSafe(earlier[|earlier| - 1], content) && NoInstall(earlier[|earlier| - 1])
    requires req.cmd == CC_UP_LOAD && Carried(content, req)
    requires forall r | r in earlier[|earlier| - 1].sent :: SameStretch(r, req)
    ensures var w, w' := earlier[|earlier| - 1], later[|later| - 1];
            && UploadSafe(w', content) && NoInstall(w') && w.area.Keys <= w'.area.Keys && w.sent <= w'.sent
            && (forall r | r in w'.sent && r.cmd == CC_UP_LOAD ::
                  r in w.sent || (r.pos == req.pos && |r.data| == |req.data|))
            && (forall r | r in w'.inbox && r.cmd == CC_UP_LOAD && r.pos == req.pos ::
                  Covers(w'.area, req.pos, |req.data|) && SomePiece(w', |req.data|))
  {
    var w, w' := earlier[|earlier| - 1], later[|later| - 1];
    var run, batch := later[|earlier| - 1..], Attempts(req, base);
    assert run[0] == w && run[|run| - 1] == w';
    MaySendAttempts(w, content, req, base);
    RunKeepsUploadSafe(srv, run, content, batch);
    RunKeepsNoInstall(srv, run, batch);
    RunSendsOnly(srv, run, batch);
    forall r | r in w'.inbox && r.cmd == CC_UP_LOAD && r.pos == req.pos
      ensures Covers(w'.area, req.pos, |req.data|) && SomePiece(w', |req.data|)
    {
      var landed :| landed in w'.sent && landed.cmd == CC_UP_LOAD && landed.pos == r.pos
                    && Covers(w'.area, r.pos, |landed.data|);
      if landed in w.sent {
        assert SameStretch(landed, req);
      }
    }
  }

  /** fsp_fopen: null when the mode is not supported or the name does not fit. */
  method Fopen(s: Session, path: seq<byte>, mode: string) returns (f: File?)
    requires s.Valid() && s.lock.semaphore > 0
    ensures f == null <==> !(PlainMode(mode) && (mode[0] == 'r' ==> NameFits(path, s.password)))
    ensures f != null ==> fresh(f) && fresh(f.inp) && fresh(f.inp.buf) && fresh(f.out) && fresh(f.out.buf)
    ensures f != null ==> f.s == s && f.name == path && f.writing == (mode[0] == 'w')
    ensures f != null && !f.writing ==> f.Reading() && f.Offset() == 0 && !f.eof && !f.err
    ensures f != null && !f.writing ==> f.out.View().data == FullName(path, s.password)
    ensures f != null && f.writing && NoUpload(s.net.w) ==> f.Writing() && f.content == [] && f.Unflushed() && f.bufpos == 0
  {
    if |mode| == 0 || mode[0] !in "rw" {
      return null;
    }
    if (|mode| > 1 && mode[1] == '+') || (|mode| > 2 && mode[1] == 'b' && mode[2] == '+') {
      return null;
    }
    f := new File(s, path, mode[0] == 'w');
    if f.writing {
      f.out.cmd := CC_UP_LOAD;
    } else {
      var rc := BuildFilename(s, f.out, path);
      if rc != 0 {
        return null;
      }
      f.bufpos := SPACE;
      f.out.cmd := CC_GET_FILE;
    }
    f.out.xlen := 0;
  }

  // "r", "w", with or without "b", and no "+".
  predicate PlainMode(mode: string) {
    && |mode| > 0 && mode[0] in "rw"
    && !(|mode| > 1 && mode[1] == '+')
    && !(|mode| > 2 && mode[1] == 'b' && mode[2] == '+')
  }

  /** No upload has been under way on this network. */
  ghost predicate NoUpload(w: World) {
    && w.area == map[] && w.installed == []
    && forall req | req in w.sent :: req.cmd != CC_UP_LOAD && req.cmd != CC_INSTALL
  }

  // A reply accepted for a GET_FILE carries the server's bytes from the requested position on.
  lemma PieceAnswered(s: Session, req: Packet, reply: Packet)
    requires s.Valid() && reply in s.net.w.inbox && Matches(s.sq, req, reply)
    requires req.cmd == CC_GET_FILE && reply.cmd != CC_ERR
    ensures IsPieceAt(s.net.srv.file, req.pos, reply.data)
  {
    var asked :| asked in s.net.w.sent && Answers(s.net.srv, asked, reply);
  }

  function Flatten(pieces: seq<seq<byte>>): seq<byte> {
    if pieces == [] then [] else Flatten(pieces[..|pieces| - 1]) + pieces[|pieces| - 1]
  }

  lemma {:induction false} FlattenPrefix(pieces: seq<seq<byte>>, i: nat)
    requires i < |pieces|
    ensures Flatten(pieces[..i + 1]) == Flatten(pieces[..i]) + pieces[i]
    ensures |Flatten(pieces[..i + 1])| <= |Flatten(pieces)|
    decreases |pieces| - i
  {
    assert pieces[..i + 1][..i] == pieces[..i];
    if i + 1 < |pieces| {
      FlattenPrefix(pieces, i + 1);
    } else {
      assert pieces[..i + 1] == pieces;
    }
  }

  lemma WritingInstallsNothing(f: File)
    requires f.Writing()
    ensures forall r | r in f.s.net.w.sent :: r.cmd != CC_INSTALL
  {
  }

  // Writes the pieces one after the other, until one is not taken in.
  method WritePieces(f: File, pieces: seq<seq<byte>>) returns (ok: bool)
    requires f.Writing() && f.content == [] && !f.err && f.bufpos < SPACE && f.Unflushed()
    requires |Flatten(pieces)| < 0x1_0000_0000
    modifies f`err, f`bufpos, f`pos, f`content, f.inp, f.inp.buf, f.out, f.out.buf, f.s, f.s.lock, f.s.net
    ensures f.Writing() && (ok ==> f.content == Flatten(pieces) && f.Unflushed())
    ensures f.s.misses == old(f.s.misses) + if ok then 0 else 1
  {
    hide FspNetwork.UploadSafe, FspNetwork.NoInstall, FspNetwork.Covers, File.UploadsBelow, File.Unflushed;
    for i := 0 to |pieces|
      invariant f.Writing() && f.content == Flatten(pieces[..i]) && !f.err && f.bufpos < SPACE && f.Unflushed()
      invariant f.s.misses == old(f.s.misses)
    {
      FlattenPrefix(pieces, i);
      var r, taken := f.FWrite(pieces[i], 1, |pieces[i]|);
      if r != |pieces[i]| {
        return false;
      }
    }
    assert pieces[..|pieces|] == pieces;
    return true;
  }

  /**
   * An upload in any number of pieces: when every write returns its full count
   * and the close succeeds, the server has made a file of exactly the pieces in
   * order. It stays that file, whatever is still in flight, if and only if it is not
   * longer than one packet's data.
   */
  method UploadFile(s: Session, path: seq<byte>, pieces: seq<seq<byte>>) returns (ok: bool)
    requires s.Valid() && s.lock.semaphore > 0 && NoUpload(s.net.w)
    requires |Flatten(pieces)| < 0x1_0000_0000
    modifies s, s.lock, s.net
    ensures ok <==> NameFits(path, s.password) && s.misses == old(s.misses)
    ensures forall r | r in s.net.w.sent && r.cmd == CC_INSTALL :: Naming(r.data, path, s.password) && r.extra == []
    ensures ok ==> InstalledFor(s.net.w, Flatten(pieces))
    ensures ok ==> (WholeForEver(s.net.srv, s.net.w, Flatten(pieces)) <==> |Flatten(pieces)| <= SPACE)
  {
    hide FspNetwork.WholeForEver, InstalledFor, File.Unflushed, Flatten, File.Writing, NoUpload, NameFits, Naming;
    hide FspNetwork.UploadSafe, FspNetwork.NoInstall, FspNetwork.Covers, File.UploadsBelow, FspSession.Session.Valid;
    var f := Fopen(s, path, "w");
    if f == null {
      return false;
    }
    ok := WritePieces(f, pieces);
    WritingInstallsNothing(f);
    if ok {
      var rc := f.FClose();
      ok := rc == 0;
    }
  }

  function Total(sizes: seq<nat>): nat {
    if sizes == [] then 0 else Total(sizes[..|sizes| - 1]) + sizes[|sizes| - 1]
  }

  /** The bytes are those of the file from `start` on. */
  predicate PartAt(file: seq<byte>, start: nat, data: seq<byte>) {
    && (data != [] ==> start + |data| <= |file|)
    && forall i | 0 <= i < |data| :: data[i] == file[start + i]
  }

  lemma PartGrows(file: seq<byte>, start: nat, data: seq<byte>, more: seq<byte>)
    requires PartAt(file, start, data) && PartAt(file, start + |data|, more)
    ensures PartAt(file, start, data + more)
  {
  }

  // One read of single bytes.
  method ReadPart(f: File, size: nat) returns (part: seq<byte>, ghost failed: bool)
    requires f.Reading() && f.Offset() >= 0
    modifies f`pos, f`eof, f`bufpos, f`err, f.inp, f.inp.buf, f.out`pos, f.out`key, f.out`sq, f.s, f.s.lock, f.s.net
    ensures f.Reading() && f.Offset() == old(f.Offset()) + |part| && PartAt(f.Source(), old(f.Offset()), part)
    ensures if failed then f.err else f.err == old(f.err)
    ensures AsksFor(old(f.s.net.w.sent), f.s.net.w.sent, CC_GET_FILE, f.name, f.s.password)
    ensures f.s.misses == old(f.s.misses) + if failed then 1 else 0
    ensures !failed ==> |part| == Min(size, f.Available(old(f.Offset())))
  {
    hide File.Reading, File.Ready, File.Source, FspSession.Session.Valid;
    var dest := new byte[size];
    var r, moved, missed := f.FRead(dest, 1, size);
    failed := missed;
    part := dest[..r];
  }

  /**
   * Reads of any sizes, with failed fetches in between, hand out consecutive
   * bytes of the server's file from where the last seek went: none twice and none
   * left out, and without a failed fetch as many as were asked for or as there are.
   */
  method Download(f: File, offset: int, sizes: seq<nat>) returns (data: seq<byte>, ghost failed: bool)
    requires f.Reading()
    modifies f`pos, f`eof, f`bufpos, f`err, f.inp, f.inp.buf, f.out`pos, f.out`key, f.out`sq, f.s, f.s.lock, f.s.net
    ensures f.Reading() && f.Offset() == offset % 0x1_0000_0000 + |data|
    ensures PartAt(f.Source(), offset % 0x1_0000_0000, data)
    ensures AsksFor(old(f.s.net.w.sent), f.s.net.w.sent, CC_GET_FILE, f.name, f.s.password)
    ensures failed <==> f.s.misses > old(f.s.misses)
    ensures if failed then f.err else f.err == old(f.err)
    ensures !failed ==> |data| == Min(Total(sizes), f.Available(offset % 0x1_0000_0000))
  {
    ghost var start := offset % 0x1_0000_0000;
    var rc := f.SeekSet(offset);
    data, failed := [], false;
    hide File.Reading, File.Ready, File.Source, AsksFor;
    AsksNothing(f.s.net.w.sent, CC_GET_FILE, f.name, f.s.password);
    AsksNothing(f.s.net.w.sent, CC_GET_FILE, f.name, f.s.password);
    for k := 0 to |sizes|
      invariant f.Reading() && f.Offset() == start + |data| && PartAt(f.Source(), start, data)
      invariant AsksFor(old(f.s.net.w.sent), f.s.net.w.sent, CC_GET_FILE, f.name, f.s.password)
      invariant f.s.misses >= old(f.s.misses) && (failed <==> f.s.misses > old(f.s.misses))
      invariant if failed then f.err else f.err == old(f.err)
      invariant !failed ==> |data| == Min(Total(sizes[..k]), f.Available(start))
    {
      assert sizes[..k + 1][..k] == sizes[..k];
      ghost var before := f.s.net.w.sent;
      var part, again := ReadPart(f, sizes[k]);
      AsksOn(old(f.s.net.w.sent), before, f.s.net.w.sent, CC_GET_FILE, f.name, f.s.password);
      PartGrows(f.Source(), start, data, part);
      failed := failed || again;
      data := data + part;
    }
    assert sizes[..|sizes|] == sizes;
  }
}
