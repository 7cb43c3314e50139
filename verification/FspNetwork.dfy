/**
 * The world a session talks to: datagrams that were sent stay in flight for
 * ever, so the server may see any of them late, repeatedly or in any order, and
 * the client may be handed any answer late, repeatedly or in any order.
 */
module FspNetwork {
  import opened Basics
  import opened Bytes
  import opened FspPacket

  /** What the server offers for download, and the block size of its directory. */
  datatype Server = Server(file: seq<byte>, listing: seq<byte>, block: nat)

  predicate ServerWF(srv: Server) {
    && |srv.file| < 0x1_0000_0000
    && |srv.listing| < 0x8000_0000
    && 0 < srv.block <= SPACE
  }

  /**
   * `sent` and `inbox` hold what every datagram that a client, and the server,
   * ever put on the wire says; `area` is the server's upload area and `installed` the
   * files that the INSTALLs it carried out made of it, the current one last.
   */
  datatype World = World(
    sent: set<Packet>, inbox: set<Packet>, area: map<nat, byte>, installed: seq<map<nat, byte>>)

  function Span(pos: nat, len: nat): (s: set<nat>)
    ensures forall k: nat :: k in s <==> pos <= k < pos + len
  {
    if len == 0 then {} else Span(pos, len - 1) + {pos + len - 1}
  }

  function Overwrite(area: map<nat, byte>, pos: nat, data: seq<byte>): (a: map<nat, byte>)
    ensures a.Keys == area.Keys + Span(pos, |data|)
    ensures forall k: nat | k in a.Keys :: a[k] == if pos <= k < pos + |data| then data[k - pos] else area[k]
  {
    map k: nat | k in area.Keys + Span(pos, |data|) ::
      if pos <= k < pos + |data| then data[k - pos] else area[k]
  }

  // A directory listing is handed out one whole block at a time.
  function BlockAt(srv: Server, pos: nat): seq<byte> {
    if pos < |srv.listing| then srv.listing[pos..Min(pos + srv.block, |srv.listing|)] else []
  }

  // A file is handed out in pieces of any size, and only its end is empty.
  predicate IsPieceAt(file: seq<byte>, pos: nat, data: seq<byte>) {
    && |data| <= SPACE
    && if pos < |file| then 0 < |data| && pos + |data| <= |file| && data == file[pos..pos + |data|] else data == []
  }

  /** `reply` is something the server may say to `req`. */
  predicate Answers(srv: Server, req: Packet, reply: Packet) {
    && Sendable(reply)
    && reply.sq == req.sq
    && (reply.cmd == CC_ERR || (reply.cmd == req.cmd && reply.pos == req.pos))
    && (reply.cmd == CC_GET_FILE ==> IsPieceAt(srv.file, req.pos, reply.data))
    && (reply.cmd == CC_GET_DIR ==> reply.data == BlockAt(srv, req.pos))
  }

  /**
   * What carrying out a request does to the server: an INSTALL ends the upload, and is
   * refused when there is none. An error reply may hide that a request was carried out.
   */
  predicate Carries(w: World, req: Packet, reply: Packet, w': World) {
    var done :=
      if req.cmd == CC_UP_LOAD then w.(area := Overwrite(w.area, req.pos, req.data))
      else if req.cmd == CC_INSTALL && w.area != map[] then w.(installed := w.installed + [w.area], area := map[])
      else w;
    && w'.sent == w.sent
    && w'.inbox == w.inbox + {reply}
    && (req.cmd == CC_INSTALL && w.area == map[] ==> reply.cmd != req.cmd)
    && ((w'.area == done.area && w'.installed == done.installed)
        || (reply.cmd != req.cmd && w'.area == w.area && w'.installed == w.installed))
  }

  ghost predicate ServerStep(srv: Server, w: World, w': World) {
    exists req, reply :: ServesWith(srv, w, req, reply, w')
  }

  predicate ServesWith(srv: Server, w: World, req: Packet, reply: Packet, w': World) {
    req in w.sent && Answers(srv, req, reply) && Carries(w, req, reply, w')
  }

  /** The server acts, or a client sends one of the datagrams in `out`. */
  ghost predicate Step(srv: Server, w: World, w': World, out: set<Packet>) {
    ServerStep(srv, w, w') || exists d :: d in out && w' == w.(sent := w.sent + {d})
  }

  /** Every way the world can go on from `run[0]` while clients send nothing but `out`. */
  ghost predicate IsRun(srv: Server, run: seq<World>, out: set<Packet>) {
    |run| > 0 && forall i :: 0 <= i < |run| - 1 ==> Step(srv, run[i], run[i + 1], out)
  }

  lemma RunInit(srv: Server, run: seq<World>, out: set<Packet>)
    requires IsRun(srv, run, out) && |run| > 1
    ensures IsRun(srv, run[..|run| - 1], out) && Step(srv, run[|run| - 2], run[|run| - 1], out)
  {
    var init := run[..|run| - 1];
    forall i | 0 <= i < |init| - 1
      ensures Step(srv, init[i], init[i + 1], out)
    {
      assert Step(srv, run[i], run[i + 1], out);
    }
    var k := |run| - 2;
    assert Step(srv, run[k], run[k + 1], out);
  }

  lemma RunsJoin(srv: Server, a: seq<World>, b: seq<World>, out: set<Packet>)
    requires IsRun(srv, a, out) && IsRun(srv, b, out) && a[|a| - 1] == b[0]
    ensures IsRun(srv, a + b[1..], out)
  {
    var run := a + b[1..];
    forall i | 0 <= i < |run| - 1
      ensures Step(srv, run[i], run[i + 1], out)
    {
      if i >= |a| - 1 {
        var j := i - (|a| - 1);
        assert run[i] == b[j] && run[i + 1] == b[j + 1];
      }
    }
  }

  // ----- downloads: every answer in flight is honest -----

  /** Every answer in flight is one the server may give to a request that really was sent. */
  ghost predicate Faithful(srv: Server, w: World) {
    forall reply :: reply in w.inbox ==> exists req :: req in w.sent && Answers(srv, req, reply)
  }

  lemma StepKeepsFaithful(srv: Server, w: World, w': World, out: set<Packet>)
    requires Faithful(srv, w) && Step(srv, w, w', out)
    ensures Faithful(srv, w') && w.sent <= w'.sent
  {
    forall reply | reply in w'.inbox
      ensures exists req :: req in w'.sent && Answers(srv, req, reply)
    {
      if reply !in w.inbox {
        var req, answer :| ServesWith(srv, w, req, answer, w');
      }
    }
  }

  /** In every run, every answer that reaches the client answers a request that was sent. */
  lemma {:induction false} RunKeepsFaithful(srv: Server, run: seq<World>, out: set<Packet>)
    requires IsRun(srv, run, out) && Faithful(srv, run[0])
    ensures Faithful(srv, run[|run| - 1]) && run[0].sent <= run[|run| - 1].sent
  {
    if |run| > 1 {
      RunInit(srv, run, out);
      RunKeepsFaithful(srv, run[..|run| - 1], out);
      StepKeepsFaithful(srv, run[|run| - 2], run[|run| - 1], out);
    }
  }

  // ----- uploads: every UP_LOAD at one position carries the same bytes -----

  predicate Covers(area: map<nat, byte>, pos: nat, len: nat) {
    forall k: nat :: pos <= k < pos + len ==> k in area
  }

  // One UP_LOAD at `pos` was both sent and written.
  ghost predicate Landed(w: World, pos: nat) {
    exists req :: req in w.sent && req.cmd == CC_UP_LOAD && req.pos == pos && Covers(w.area, pos, |req.data|)
  }

  /** The stretch of `content` an UP_LOAD claims to carry is what it carries. */
  predicate Carried(content: seq<byte>, req: Packet) {
    req.pos + |req.data| <= |content| && req.data == content[req.pos..req.pos + |req.data|]
  }

  predicate SameStretch(a: Packet, b: Packet) {
    a.cmd == CC_UP_LOAD && b.cmd == CC_UP_LOAD && a.pos == b.pos ==> |a.data| == |b.data|
  }

  ghost predicate UploadsAgree(w: World, content: seq<byte>) {
    && (forall req | req in w.sent && req.cmd == CC_UP_LOAD :: Carried(content, req))
    && (forall a, b | a in w.sent && b in w.sent :: SameStretch(a, b))
  }

  predicate AreaAgrees(area: map<nat, byte>, content: seq<byte>) {
    forall k: nat :: k in area ==> k < |content| && area[k] == content[k]
  }

  ghost predicate AcksAreHonest(w: World) {
    forall reply :: reply in w.inbox && reply.cmd == CC_UP_LOAD ==> Landed(w, reply.pos)
  }

  /** The map holds `content`, byte for byte, and nothing else. */
  ghost predicate Holds(area: map<nat, byte>, content: seq<byte>) {
    AreaAgrees(area, content) && forall k: nat :: k in area <==> k < |content|
  }

  /** The whole content is in the upload area, or was already made into a file. */
  ghost predicate MayInstall(w: World, content: seq<byte>) {
    if w.installed == [] then Covers(w.area, 0, |content|) else Holds(w.installed[0], content)
  }

  // An INSTALL is only sent once the whole content is in the upload area.
  ghost predicate InstallsAreHonest(w: World, content: seq<byte>) {
    && ((exists req :: req in w.sent && req.cmd == CC_INSTALL) || w.installed != [] ==> MayInstall(w, content))
    && (forall reply | reply in w.inbox && reply.cmd == CC_INSTALL :: w.installed != [])
  }

  /**
   * Everything that keeps an upload of `content` right, whatever the network does.
   * Once an INSTALL has emptied the upload area, an answer to an UP_LOAD says nothing about it.
   */
  ghost predicate UploadSafe(w: World, content: seq<byte>) {
    && UploadsAgree(w, content) && AreaAgrees(w.area, content) && InstallsAreHonest(w, content)
    && (w.installed == [] ==> AcksAreHonest(w))
  }

  /** Files once made are not taken back, and until the next one is made the upload area only grows. */
  predicate Grows(w: World, w': World) {
    w.sent <= w'.sent && w.installed <= w'.installed && (w'.installed == w.installed ==> w.area.Keys <= w'.area.Keys)
  }

  lemma GrowsOn(a: World, b: World, c: World)
    requires Grows(a, b) && Grows(b, c)
    ensures Grows(a, c)
  {
  }

  lemma ServerStepKeepsUploadSafe(srv: Server, w: World, w': World, content: seq<byte>)
    requires UploadSafe(w, content) && ServerStep(srv, w, w')
    ensures UploadSafe(w', content) && Grows(w, w') && w'.sent == w.sent
  {
    var req, answer :| ServesWith(srv, w, req, answer, w');
    CarriedOutKeepsInstalls(srv, w, req, answer, w', content);
    if w'.installed == [] {
      forall reply | reply in w'.inbox && reply.cmd == CC_UP_LOAD
        ensures Landed(w', reply.pos)
      {
        if reply in w.inbox {
          LandedStays(w, w', reply.pos);
        }
      }
    }
  }

  lemma CarriedOutKeepsInstalls(srv: Server, w: World, req: Packet, reply: Packet, w': World, content: seq<byte>)
    requires UploadSafe(w, content) && ServesWith(srv, w, req, reply, w')
    ensures AreaAgrees(w'.area, content) && InstallsAreHonest(w', content) && Grows(w, w')
  {
    if w'.installed != w.installed {
      assert MayInstall(w, content);
      assert w'.installed[0] == if w.installed == [] then w.area else w.installed[0];
    }
  }

  lemma LandedStays(w: World, w': World, pos: nat)
    requires Landed(w, pos) && w.sent <= w'.sent && w.area.Keys <= w'.area.Keys
    ensures Landed(w', pos)
  {
  }

  /** A packet may be sent when it carries its stretch of the content and no other length went to its position. */
  ghost predicate MaySend(w: World, content: seq<byte>, req: Packet) {
    && (req.cmd == CC_UP_LOAD ==> Carried(content, req) && forall r | r in w.sent :: SameStretch(r, req))
    && (req.cmd == CC_INSTALL ==> MayInstall(w, content))
  }

  /** The same for a batch, in which no two packets put different lengths at one position. */
  ghost predicate MaySendAll(w: World, content: seq<byte>, out: set<Packet>) {
    (forall a, b | a in out && b in out :: SameStretch(a, b)) && forall req | req in out :: MaySend(w, content, req)
  }

  lemma StepKeepsUploadSafe(srv: Server, w: World, w': World, content: seq<byte>, out: set<Packet>)
    requires UploadSafe(w, content) && MaySendAll(w, content, out) && Step(srv, w, w', out)
    ensures UploadSafe(w', content) && MaySendAll(w', content, out) && Grows(w, w')
  {
    if ServerStep(srv, w, w') {
      ServerStepKeepsUploadSafe(srv, w, w', content);
      assert MayInstall(w, content) ==> MayInstall(w', content) by {
        assert w'.installed != [] ==> MayInstall(w', content);
      }
    } else {
      if w.installed == [] {
        forall reply | reply in w'.inbox && reply.cmd == CC_UP_LOAD
          ensures Landed(w', reply.pos)
        {
          LandedStays(w, w', reply.pos);
        }
      }
    }
  }

  /**
   * Whatever the network loses, repeats or reorders, and however late the server
   * acts, a run in which the client sends only its own stretches of `content`
   * keeps the upload safe and, until an INSTALL is carried out, takes nothing out
   * of the upload area.
   */
  lemma {:induction false} RunKeepsUploadSafe(srv: Server, run: seq<World>, content: seq<byte>, out: set<Packet>)
    requires IsRun(srv, run, out)
    requires UploadSafe(run[0], content) && MaySendAll(run[0], content, out)
    ensures var w := run[|run| - 1];
            UploadSafe(w, content) && MaySendAll(w, content, out) && Grows(run[0], w)
  {
    if |run| > 1 {
      RunInit(srv, run, out);
      RunKeepsUploadSafe(srv, run[..|run| - 1], content, out);
      StepKeepsUploadSafe(srv, run[|run| - 2], run[|run| - 1], content, out);
      GrowsOn(run[0], run[|run| - 2], run[|run| - 1]);
    }
  }

  /**
   * Once the whole content has landed, late duplicates and further server steps
   * leave the upload area as it is until an INSTALL is carried out, and the first
   * file made is the content.
   */
  lemma CompleteUploadIsStable(srv: Server, run: seq<World>, content: seq<byte>)
    requires IsRun(srv, run, {}) && run[0].installed == []
    requires UploadSafe(run[0], content) && Covers(run[0].area, 0, |content|)
    ensures var w := run[|run| - 1];
            Holds(run[0].area, content) && if w.installed == [] then w.area == run[0].area else Holds(w.installed[0], content)
  {
    RunKeepsUploadSafe(srv, run, content, {});
    var w := run[|run| - 1];
    assert w.installed == [] ==> forall k: nat :: k in w.area <==> k in run[0].area;
  }

  // ----- after the INSTALL: how long the file stays whole -----

  /** The file the server has under the name now is the content. */
  ghost predicate Whole(w: World, content: seq<byte>) {
    w.installed != [] && Holds(w.installed[|w.installed| - 1], content)
  }

  /** No UP_LOAD in flight carries a mere part of the content, and none has landed since the last INSTALL. */
  ghost predicate NoPartInFlight(w: World, content: seq<byte>) {
    && (w.area == map[] || Holds(w.area, content))
    && forall req | req in w.sent && req.cmd == CC_UP_LOAD :: req.data == [] || req.data == content
  }

  ghost predicate WholeForEver(srv: Server, w: World, content: seq<byte>) {
    forall run :: IsRun(srv, run, {}) && run[0] == w ==> Whole(run[|run| - 1], content)
  }

  lemma AllOrNothing(area: map<nat, byte>, req: Packet, content: seq<byte>)
    requires (area == map[] || Holds(area, content)) && Carried(content, req) && (req.data == [] || req.data == content)
    ensures var next := Overwrite(area, req.pos, req.data);
            next == map[] || Holds(next, content)
  {
    var next := Overwrite(area, req.pos, req.data);
    if req.data == [] {
      assert next == area;
    } else {
      assert forall k: nat :: k in next <==> k < |content|;
    }
  }

  lemma StepKeepsWhole(srv: Server, w: World, w': World, content: seq<byte>, out: set<Packet>)
    requires NoPartInFlight(w, content) && Step(srv, w, w', out) && forall req | req in out :: req.cmd != CC_UP_LOAD
    requires forall req | req in w.sent && req.cmd == CC_UP_LOAD :: Carried(content, req)
    ensures NoPartInFlight(w', content)
    ensures forall req | req in w'.sent && req.cmd == CC_UP_LOAD :: Carried(content, req)
    ensures w.installed == [] || Whole(w, content) ==> w'.installed == [] || Whole(w', content)
    ensures w.installed <= w'.installed
  {
    hide Holds, Overwrite, Answers, Carried;
    if ServerStep(srv, w, w') {
      var req, answer :| ServesWith(srv, w, req, answer, w');
      if req.cmd == CC_UP_LOAD {
        AllOrNothing(w.area, req, content);
      }
    }
  }

  /** A run that sends no UP_LOADs keeps every file that is made whole, if no part of the content is in flight. */
  lemma {:induction false} RunKeepsWhole(srv: Server, run: seq<World>, content: seq<byte>, out: set<Packet>)
    requires IsRun(srv, run, out) && NoPartInFlight(run[0], content) && forall req | req in out :: req.cmd != CC_UP_LOAD
    requires forall req | req in run[0].sent && req.cmd == CC_UP_LOAD :: Carried(content, req)
    requires run[0].installed == [] || Whole(run[0], content)
    ensures var w := run[|run| - 1];
            && NoPartInFlight(w, content) && run[0].installed <= w.installed
            && (w.installed == [] || Whole(w, content))
            && forall req | req in w.sent && req.cmd == CC_UP_LOAD :: Carried(content, req)
  {
    hide NoPartInFlight, Carried, Whole;
    if |run| > 1 {
      RunInit(srv, run, out);
      RunKeepsWhole(srv, run[..|run| - 1], content, out);
      StepKeepsWhole(srv, run[|run| - 2], run[|run| - 1], content, out);
    }
  }

  // The server carries a request out and says that it did not.
  function Refusal(req: Packet): Packet {
    Packet(CC_ERR, 0, req.sq, 0, [], [])
  }

  function Uploaded(w: World, req: Packet): World {
    w.(area := Overwrite(w.area, req.pos, req.data), inbox := w.inbox + {Refusal(req)})
  }

  function Made(w: World, req: Packet): World {
    w.(installed := w.installed + [w.area], area := map[], inbox := w.inbox + {Refusal(req)})
  }

  lemma UploadHappens(srv: Server, w: World, req: Packet)
    requires req in w.sent && req.cmd == CC_UP_LOAD
    ensures Step(srv, w, Uploaded(w, req), {})
  {
    assert ServesWith(srv, w, req, Refusal(req), Uploaded(w, req));
  }

  lemma InstallHappens(srv: Server, w: World, req: Packet)
    requires req in w.sent && req.cmd == CC_INSTALL && w.area != map[]
    ensures Step(srv, w, Made(w, req), {})
  {
    assert ServesWith(srv, w, req, Refusal(req), Made(w, req));
  }

  // What is in the area now is made into a file.
  lemma PartIsInstalled(srv: Server, w: World, content: seq<byte>, install: Packet)
    requires install in w.sent && install.cmd == CC_INSTALL && w.area != map[] && !Holds(w.area, content)
    ensures exists run :: IsRun(srv, run, {}) && run[0] == w && !Whole(run[|run| - 1], content)
  {
    InstallHappens(srv, w, install);
    var run := [w, Made(w, install)];
    assert IsRun(srv, run, {});
    assert !Whole(run[|run| - 1], content);
  }

  lemma RunPrepended(srv: Server, w: World, w': World, content: seq<byte>)
    requires Step(srv, w, w', {})
    requires exists run :: IsRun(srv, run, {}) && run[0] == w' && !Whole(run[|run| - 1], content)
    ensures exists run :: IsRun(srv, run, {}) && run[0] == w && !Whole(run[|run| - 1], content)
  {
    var run :| IsRun(srv, run, {}) && run[0] == w' && !Whole(run[|run| - 1], content);
    var first := [w, w'];
    assert IsRun(srv, first, {});
    RunsJoin(srv, first, run, {});
    var all := first + run[1..];
    assert all[0] == w && all[|all| - 1] == run[|run| - 1];
  }

  /**
   * A late UP_LOAD of a part of the content and a late INSTALL: the server ends up
   * with that part for the file.
   */
  lemma PartReplacesWhole(srv: Server, w: World, content: seq<byte>, part: Packet, install: Packet)
    requires part in w.sent && part.cmd == CC_UP_LOAD && 0 < |part.data| < |content|
    requires install in w.sent && install.cmd == CC_INSTALL
    ensures exists run :: IsRun(srv, run, {}) && run[0] == w && !Whole(run[|run| - 1], content)
  {
    var emptied := if w.area == map[] then w else Made(w, install);
    var partial := Uploaded(emptied, part);
    assert partial.area.Keys == Span(part.pos, |part.data|);
    assert part.pos in partial.area;
    assert !Holds(partial.area, content) by {
      assert 0 !in partial.area || |content| - 1 !in partial.area;
    }
    PartIsInstalled(srv, partial, content, install);
    UploadHappens(srv, emptied, part);
    RunPrepended(srv, emptied, partial, content);
    if w.area != map[] {
      InstallHappens(srv, w, install);
      RunPrepended(srv, w, emptied, content);
    }
  }

  /**
   * With an INSTALL in flight, the file stays the content whatever the server does
   * later, if and only if it is the content now and no part of the content is on its
   * way into the upload area or was left there.
   */
  lemma InstalledStays(srv: Server, w: World, content: seq<byte>, install: Packet)
    requires UploadSafe(w, content) && install in w.sent && install.cmd == CC_INSTALL
    ensures WholeForEver(srv, w, content) <==> Whole(w, content) && NoPartInFlight(w, content)
  {
    if Whole(w, content) && NoPartInFlight(w, content) {
      forall run | IsRun(srv, run, {}) && run[0] == w
        ensures Whole(run[|run| - 1], content)
      {
        RunKeepsWhole(srv, run, content, {});
      }
    } else if !Whole(w, content) {
      assert IsRun(srv, [w], {}) && [w][0] == w && !Whole([w][|[w]| - 1], content);
    } else if w.area != map[] && !Holds(w.area, content) {
      PartIsInstalled(srv, w, content, install);
    } else {
      var part :| part in w.sent && part.cmd == CC_UP_LOAD && part.data != [] && part.data != content;
      assert Carried(content, part);
      assert |part.data| < |content|;
      PartReplacesWhole(srv, w, content, part, install);
    }
  }

  // ----- before the INSTALL, the content may still grow -----

  ghost predicate NoInstall(w: World) {
    w.installed == [] && forall req | req in w.sent :: req.cmd != CC_INSTALL
  }

  lemma {:induction false} RunKeepsNoInstall(srv: Server, run: seq<World>, out: set<Packet>)
    requires IsRun(srv, run, out) && NoInstall(run[0]) && forall req | req in out :: req.cmd != CC_INSTALL
    ensures NoInstall(run[|run| - 1])
  {
    if |run| > 1 {
      RunInit(srv, run, out);
      RunKeepsNoInstall(srv, run[..|run| - 1], out);
    }
  }

  lemma {:induction false} RunSendsOnly(srv: Server, run: seq<World>, out: set<Packet>)
    requires IsRun(srv, run, out)
    ensures run[0].sent <= run[|run| - 1].sent <= run[0].sent + out
  {
    if |run| > 1 {
      RunInit(srv, run, out);
      RunSendsOnly(srv, run[..|run| - 1], out);
    }
  }

  lemma ContentGrows(srv: Server, w: World, content: seq<byte>, more: seq<byte>)
    requires UploadSafe(w, content) && NoInstall(w) && Faithful(srv, w)
    ensures UploadSafe(w, content + more)
  {
    var all := content + more;
    forall req | req in w.sent && req.cmd == CC_UP_LOAD
      ensures Carried(all, req)
    {
      assert all[req.pos..req.pos + |req.data|] == content[req.pos..req.pos + |req.data|];
    }
  }

  lemma RunGrows(srv: Server, run: seq<World>, out: set<Packet>, more: set<Packet>)
    requires IsRun(srv, run, out) && out <= more
    ensures IsRun(srv, run, more)
  {
    forall i | 0 <= i < |run| - 1
      ensures Step(srv, run[i], run[i + 1], more)
    {
      assert Step(srv, run[i], run[i + 1], out);
    }
  }

  /** An acknowledged position holds the whole stretch that was ever sent there. */
  lemma AcknowledgedMeansLanded(w: World, content: seq<byte>, req: Packet, reply: Packet)
    requires UploadSafe(w, content) && w.installed == [] && req in w.sent && reply in w.inbox
    requires req.cmd == CC_UP_LOAD && reply.cmd == CC_UP_LOAD && reply.pos == req.pos
    ensures Covers(w.area, req.pos, |req.data|)
  {
    var r :| r in w.sent && r.cmd == CC_UP_LOAD && r.pos == reply.pos && Covers(w.area, r.pos, |r.data|);
    assert SameStretch(r, req);
  }

  /** The history `later` continues `earlier`, with clients sending only `out` in between. */
  ghost predicate Extends(srv: Server, earlier: seq<World>, later: seq<World>, out: set<Packet>) {
    |earlier| > 0 && earlier <= later && IsRun(srv, later[|earlier| - 1..], out)
  }

  lemma ExtendsSelf(srv: Server, a: seq<World>, out: set<Packet>)
    requires |a| > 0
    ensures Extends(srv, a, a, out)
  {
  }

  lemma ExtendsJoin(srv: Server, a: seq<World>, b: seq<World>, c: seq<World>, out: set<Packet>)
    requires Extends(srv, a, b, out) && Extends(srv, b, c, out)
    ensures Extends(srv, a, c, out)
  {
    var x, y := b[|a| - 1..], c[|b| - 1..];
    assert x[|x| - 1] == y[0];
    RunsJoin(srv, x, y, out);
    assert x + y[1..] == c[|a| - 1..];
  }

  lemma ExtendsMore(srv: Server, a: seq<World>, b: seq<World>, out: set<Packet>, more: set<Packet>)
    requires Extends(srv, a, b, out) && out <= more
    ensures Extends(srv, a, b, more)
  {
    RunGrows(srv, b[|a| - 1..], out, more);
  }

  datatype SendResult = Sent | BadSocket | SendFailed
  datatype WaitResult = Ready | TimedOut | Interrupted(elapsed: int) | WaitFailed

  /**
   * What happened at the client's end of the wire: it tried to send bytes, it asked to
   * wait for so long, or it was handed bytes so long after it had sent.
   */
  datatype NetEvent =
    | Sending(bytes: seq<byte>, result: SendResult)
    | Asked(delay: int, ended: WaitResult)
    | Got(bytes: seq<byte>, elapsed: int)

  /**
   * The client's end of the wire. Whether a send works, what a wait ends in and
   * which datagram arrives is left open; `quota` bounds the number of events
   * still to come, after which every wait runs into its timeout.
   */
  class Network {
    const srv: Server
    var w: World
    var quota: nat
    ghost var trace: seq<World>
    ghost var log: seq<NetEvent>
    // How often a call failed for good.
    ghost var breaks: nat

    ghost predicate Valid()
      reads this
    {
      ServerWF(srv) && |trace| > 0 && trace[|trace| - 1] == w && Faithful(srv, w)
    }

    method Advance(next: World, ghost out: set<Packet>)
      requires Valid() && Step(srv, w, next, out)
      modifies this`w, this`trace
      ensures Valid() && w == next && Extends(srv, old(trace), trace, out)
    {
      StepKeepsFaithful(srv, w, next, out);
      w := next;
      trace := trace + [w];
      assert trace[|old(trace)| - 1..] == [old(w), w];
    }

    // The server carries out any number of the datagrams in flight.
    method ServerActs()
      requires Valid()
      modifies this`w, this`trace
      ensures Valid() && Extends(srv, old(trace), trace, {})
    {
      var n: int := *;
      assert trace[|trace| - 1..] == [w];
      for i := 0 to if n > 0 then n else 0
        invariant Valid() && Extends(srv, old(trace), trace, {})
      {
        var req: Packet, reply: Packet, next: World := *, *, *;
        if ServesWith(srv, w, req, reply, next) {
          ghost var before := trace;
          assert ServerStep(srv, w, next);
          Advance(next, {});
          ExtendsJoin(srv, old(trace), before, trace, {});
        }
      }
    }

    method Send(d: seq<byte>) returns (r: SendResult)
      requires Valid()
      modifies this`w, this`trace, this`log, this`breaks
      ensures Valid() && Extends(srv, old(trace), trace, SaidBy(d)) && log == old(log) + [Sending(d, r)]
      ensures breaks == old(breaks) + if r.BadSocket? then 1 else 0
      ensures r.Sent? ==> SaidBy(d) <= w.sent
    {
      hide Faithful, ServerStep, FspPacket.ServerDecode;
      r := *;
      assert trace[|trace| - 1..] == [w];
      if r.Sent? && ServerDecode(d).Some? {
        Advance(w.(sent := w.sent + {ServerDecode(d).value}), SaidBy(d));
      }
      ghost var before := trace;
      ServerActs();
      ExtendsMore(srv, before, trace, {}, SaidBy(d));
      ExtendsJoin(srv, old(trace), before, trace, SaidBy(d));
      RunKeepsFaithful(srv, trace[|before| - 1..], {});
      log, breaks := log + [Sending(d, r)], breaks + if r.BadSocket? then 1 else 0;
    }

    /** Waits for an answer, at most `delay`. */
    method Select(delay: int) returns (r: WaitResult)
      requires Valid()
      modifies this
      ensures Valid() && Extends(srv, old(trace), trace, {}) && log == old(log) + [Asked(delay, r)]
      ensures quota <= old(quota) && breaks == old(breaks) + if r.WaitFailed? then 1 else 0
      ensures !r.TimedOut? ==> quota < old(quota)
    {
      ServerActs();
      if quota == 0 {
        r := TimedOut;
      } else {
        quota := quota - 1;
        r := *;
      }
      log, breaks := log + [Asked(delay, r)], breaks + if r.WaitFailed? then 1 else 0;
    }

    /** Hands over any answer in flight, or bytes that are not a datagram of this protocol. */
    method Receive(buf: array<byte>) returns (r: int, elapsed: int)
      requires Valid() && buf.Length >= MAXPACKET
      modifies buf, this`log, this`breaks
      ensures breaks == old(breaks) + if r < 0 then 1 else 0
      ensures r <= buf.Length && log == if r < 0 then old(log) else old(log) + [Got(buf[..r], elapsed)]
      ensures r < 0 || (r <= MAXPACKET && (IsAnswerImage(w, buf[..r]) || !Accepts(buf[..r])))
    {
      elapsed := *;
      var d: seq<byte>;
      var reply: Packet := *;
      if reply in w.inbox {
        d := ServerImage(reply);
      } else {
        d := *;
        if |d| > MAXPACKET || Accepts(d) {
          breaks := breaks + 1;
          return -1, elapsed;
        }
      }
      forall i | 0 <= i < |d| {
        buf[i] := d[i];
      }
      assert buf[..|d|] == d;
      r := |d|;
      log := log + [Got(d, elapsed)];
    }
  }

  // What the server makes of a datagram; one it cannot read it ignores.
  function SaidBy(d: seq<byte>): set<Packet> {
    if ServerDecode(d).Some? then {ServerDecode(d).value} else {}
  }

  ghost predicate IsAnswerImage(w: World, d: seq<byte>) {
    exists reply :: reply in w.inbox && Sendable(reply) && d == ServerImage(reply)
  }
}
