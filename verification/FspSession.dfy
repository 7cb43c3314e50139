/**
 * One stop-and-wait transaction: take the shared key, send the request with
 * growing waits until an answer with the current sequence base turns up, and
 * give the key back.
 */
module FspSession {
  import opened Basics
  import opened Bytes
  import opened FspPacket
  import opened FspNetwork

  // ----- the sequence base: the 13 bits above the retry tag -----

  predicate IsBase(base: uint16) {
    base % 8 == 0
  }

  // A 16-bit number with its low three bits cleared.
  function BaseOf(x: nat): (base: uint16)
    ensures IsBase(base)
  {
    x % 0x1_0000 / 8 * 8
  }

  // The number with bit 7 the other way round.
  function Toggle7(x: uint16): (r: uint16)
    ensures (r == x + 0x80 || r == x - 0x80) && (IsBase(x) ==> IsBase(r))
  {
    if x / 0x80 % 2 == 0 then x + 0x80 else x - 0x80
  }

  // The number with bit 12 the other way round.
  function Toggle12(x: uint16): (r: uint16)
    ensures (r == x + 0x1000 || r == x - 0x1000) && (IsBase(x) ==> IsBase(r))
  {
    if x / 0x1000 % 2 == 0 then x + 0x1000 else x - 0x1000
  }

  // The base of the next transaction, given the random number drawn for it.
  function NextBase(base: uint16, random: nat): (next: uint16)
    requires IsBase(base)
    ensures IsBase(next) && next != base
  {
    var drawn := BaseOf(random);
    if base == drawn then Flip(base) else drawn
  }

  // The base with the low three bits of the attempt's number in its own free bits.
  function Tagged(base: uint16, retry: nat): (sq: uint16)
    requires IsBase(base)
    ensures BaseOf(sq) == base && sq % 8 == retry % 8
  {
    base + retry % 8
  }

  predicate IsPositional(cmd: byte) {
    cmd in {CC_GET_DIR, CC_GET_FILE, CC_UP_LOAD, CC_GRAB_FILE, CC_INFO}
  }

  /** The three tests an answer has to pass. */
  predicate Matches(base: uint16, req: Packet, reply: Packet) {
    && BaseOf(reply.sq) == base
    && (reply.cmd == req.cmd || reply.cmd == CC_ERR)
    && (reply.pos == req.pos || !IsPositional(req.cmd))
  }

  function Attempt(req: Packet, base: uint16, retry: nat): Packet
    requires IsBase(base)
  {
    req.(sq := Tagged(base, retry))
  }

  function AttemptsBelow(req: Packet, base: uint16, n: nat): (out: set<Packet>)
    requires IsBase(base)
    ensures forall k: nat | k < n :: Attempt(req, base, k) in out
    ensures forall p | p in out :: exists k: nat :: k < n && p == Attempt(req, base, k)
  {
    if n == 0 then {} else AttemptsBelow(req, base, n - 1) + {Attempt(req, base, n - 1)}
  }

  /** What one transaction may put on the wire, one packet per retry tag. */
  function Attempts(req: Packet, base: uint16): set<Packet>
    requires IsBase(base)
  {
    AttemptsBelow(req, base, 8)
  }

  lemma AttemptIsTagged(req: Packet, base: uint16, retry: nat)
    requires IsBase(base)
    ensures Attempt(req, base, retry) in Attempts(req, base)
  {
    var k := retry % 8;
    assert k % 8 == k && Attempt(req, base, retry) == Attempt(req, base, k);
  }

  /** A packet with too much data goes out as an empty datagram, which says nothing. */
  function Outgoing(fits: bool, req: Packet, base: uint16): set<Packet>
    requires IsBase(base)
  {
    if fits then Attempts(req, base) else {}
  }

  /** What goes out for a request. */
  function Datagram(fits: bool, req: Packet): seq<byte>
    requires Sendable(req)
  {
    if fits then ClientImage(req) else []
  }

  ghost predicate IsAttempt(fits: bool, req: Packet, base: uint16, bytes: seq<byte>)
    requires Sendable(req) && IsBase(base)
  {
    exists k: nat :: bytes == Datagram(fits, Attempt(req, base, k))
  }

  /** Each send was one of an attempt of this request. */
  ghost predicate SendsOnly(fits: bool, req: Packet, base: uint16, news: seq<NetEvent>)
    requires Sendable(req) && IsBase(base)
  {
    forall e | e in news && e.Sending? :: IsAttempt(fits, req, base, e.bytes)
  }

  lemma NothingSent(fits: bool, req: Packet, base: uint16)
    requires Sendable(req) && IsBase(base)
    ensures SendsOnly(fits, req, base, [])
  {
  }

  lemma SendsMore(fits: bool, req: Packet, base: uint16, news: seq<NetEvent>, more: seq<NetEvent>, k: nat, sent: SendResult, wait: int)
    requires Sendable(req) && IsBase(base) && SendsOnly(fits, req, base, news)
    requires OneSend(more, Datagram(fits, Attempt(req, base, k)), sent, wait)
    ensures SendsOnly(fits, req, base, news + more)
  {
    hide Datagram, Waits;
    assert IsAttempt(fits, req, base, more[0].bytes);
    assert more == [more[0]] + more[1..];
    if sent.Sent? {
      WaitsSendNothing(wait, more[1..]);
    }
  }

  lemma NothingSaid(d: seq<byte>)
    requires d == []
    ensures SaidBy(d) == {}
  {
  }

  /**
   * An answer to an attempt of the immediately preceding transaction is never
   * taken for an answer to this one.
   */
  lemma LateAnswerRejected(srv: Server, base: uint16, random: nat, retry: nat, before: Packet, req: Packet, reply: Packet)
    requires IsBase(base)
    requires Answers(srv, Attempt(before, base, retry), reply)
    ensures !Matches(NextBase(base, random), req, reply)
  {
    assert BaseOf(Tagged(base, retry)) == base;
  }

  // The other base that an unlucky draw leads to.
  function Flip(base: uint16): (r: uint16)
    requires IsBase(base)
    ensures IsBase(r) && r != base
  {
    Toggle12(Toggle7(base))
  }

  lemma Toggle7Only(x: uint16)
    ensures Toggle7(x) / 0x80 % 2 == 1 - x / 0x80 % 2 && Toggle7(x) / 0x1000 == x / 0x1000
  {
    var q, l := x / 0x80, x % 0x80;
    assert x == 0x80 * q + l;
    var q' := if q % 2 == 0 then q + 1 else q - 1;
    assert Toggle7(x) == 0x80 * q' + l;
    assert Toggle7(x) / 0x80 == q' && q' / 32 == q / 32;
    assert x / 0x1000 == q / 32 && Toggle7(x) / 0x1000 == q' / 32;
  }

  lemma Toggle12Only(x: uint16)
    ensures Toggle12(x) / 0x1000 % 2 == 1 - x / 0x1000 % 2 && Toggle12(x) / 0x80 % 2 == x / 0x80 % 2
  {
    var q, l := x / 0x1000, x % 0x1000;
    assert x == 0x1000 * q + l;
    var q' := if q % 2 == 0 then q + 1 else q - 1;
    assert Toggle12(x) == 0x1000 * q' + l;
    assert Toggle12(x) / 0x1000 == q';
    assert x / 0x80 == 32 * q + l / 0x80 && Toggle12(x) / 0x80 == 32 * q' + l / 0x80;
  }

  lemma FlipTwice(base: uint16)
    requires IsBase(base)
    ensures Flip(Flip(base)) == base
  {
    Toggle7Only(base);
    Toggle12Only(Toggle7(base));
    Toggle7Only(Flip(base));
    Toggle12Only(Toggle7(Flip(base)));
  }

  /**
   * Only the immediately preceding transaction is shut out: two transactions on,
   * the base is back exactly if it is drawn then, or if its flip side is drawn
   * while that is the base in between.
   */
  lemma BaseMayReturn(base: uint16, r1: nat, r2: nat)
    requires IsBase(base)
    ensures NextBase(NextBase(base, r1), r2) == base <==>
            BaseOf(r2) == base || (BaseOf(r2) == Flip(base) && BaseOf(r1) in {base, Flip(base)})
  {
    FlipTwice(base);
    FlipTwice(BaseOf(r1));
  }

  // ----- the waits -----

  const FIRST_DELAY := 1340
  const LEAST_DELAY := 1000

  // The delay of the n-th attempt before it is brought within limits.
  function RawDelay(n: nat): (delay: nat)
    ensures delay >= FIRST_DELAY
  {
    if n == 0 then FIRST_DELAY else RawDelay(n - 1) * 3 / 2
  }

  /** The waits grow by one half, rounded down, from 1340 on, and stay between 1000 and the maximum. */
  lemma DelayLaw(n: nat, maxdelay: nat)
    ensures RawDelay(0) == 1340 && 3 * RawDelay(n) - 1 <= 2 * RawDelay(n + 1) <= 3 * RawDelay(n)
    ensures maxdelay >= 1340 ==> Clamp(RawDelay(n), maxdelay) == Min(RawDelay(n), maxdelay)
    ensures maxdelay < 1340 ==> Clamp(RawDelay(n), maxdelay) == maxdelay
  {
  }

  function Clamp(delay: int, maxdelay: nat): int {
    if delay > maxdelay then maxdelay else if delay < LEAST_DELAY then LEAST_DELAY else delay
  }

  function LeastWait(maxdelay: nat): nat {
    Min(LEAST_DELAY, maxdelay)
  }

  function MostWait(maxdelay: nat): nat {
    if maxdelay < LEAST_DELAY then LEAST_DELAY else maxdelay
  }

  predicate NeverDecreases(waits: seq<int>) {
    forall i, j | 0 <= i < j < |waits| :: waits[i] <= waits[j]
  }

  /** What a transaction has done so far: its sends, and the wait after each send that worked. */
  datatype Pace = Pace(sends: nat, failed: nat, waits: seq<int>, accounted: int)

  const AT_REST := Pace(0, 0, [], 0)

  /** A bounded number of sends, a bounded accounted delay, and waits that never shrink. */
  predicate WellPaced(pace: Pace, timeout: nat, maxdelay: nat) {
    && pace.accounted >= 0
    && (pace.sends > 0 ==> (pace.sends - 1) * LeastWait(maxdelay) < timeout)
    && pace.accounted < timeout + MostWait(maxdelay)
    && NeverDecreases(pace.waits)
    && (pace.failed == 0 ==> forall i | 0 <= i < |pace.waits| :: pace.waits[i] == Clamp(RawDelay(i), maxdelay))
  }

  predicate Paced(pace: Pace, timeout: nat, maxdelay: nat, l_delay: int) {
    var n := |pace.waits|;
    && WellPaced(pace, timeout, maxdelay)
    && pace.sends * LeastWait(maxdelay) <= pace.accounted
    && n == pace.sends - pace.failed
    && (n > 0 ==> l_delay >= FIRST_DELAY)
    && (forall i | 0 <= i < n :: pace.waits[i] <= Clamp(l_delay, maxdelay))
    && (pace.failed == 0 && n > 0 ==> l_delay == RawDelay(n - 1))
  }

  lemma PacedIsWellPaced(pace: Pace, timeout: nat, maxdelay: nat, l_delay: int)
    requires Paced(pace, timeout, maxdelay, l_delay)
    ensures WellPaced(pace, timeout, maxdelay)
  {
  }

  lemma AtRestIsPaced(timeout: nat, maxdelay: nat)
    ensures WellPaced(AT_REST, timeout, maxdelay) && Paced(AT_REST, timeout, maxdelay, 0)
  {
  }

  function NextDelay(retry: nat, l_delay: int): int {
    if retry == 0 then FIRST_DELAY else l_delay * 3 / 2
  }

  /** What is added by a send that ended like this and, if it worked, the wait after it. */
  function AfterSend(pace: Pace, sent: SendResult, wait: int): Pace {
    match sent
    case Sent => Pace(pace.sends + 1, pace.failed, pace.waits + [wait], pace.accounted + wait)
    case BadSocket => pace.(sends := pace.sends + 1, failed := pace.failed + 1)
    case SendFailed => Pace(pace.sends + 1, pace.failed + 1, pace.waits, pace.accounted + 1000)
  }

  lemma SendKeepsPace(pace: Pace, timeout: nat, maxdelay: nat, l_delay: int, sent: SendResult)
    requires maxdelay > 0 && Paced(pace, timeout, maxdelay, l_delay) && pace.accounted < timeout
    ensures var w := NextDelay(|pace.waits|, l_delay);
            var next := AfterSend(pace, sent, Clamp(w, maxdelay));
            Clamp(w, maxdelay) > 0 && WellPaced(next, timeout, maxdelay) && (!sent.BadSocket? ==> Paced(next, timeout, maxdelay, w))
  {
    if sent.Sent? {
      WorkedKeepsPace(pace, timeout, maxdelay, l_delay);
    } else {
      FailedKeepsPace(pace, timeout, maxdelay, l_delay);
    }
  }

  lemma WorkedKeepsPace(pace: Pace, timeout: nat, maxdelay: nat, l_delay: int)
    requires maxdelay > 0 && Paced(pace, timeout, maxdelay, l_delay) && pace.accounted < timeout
    ensures var w := NextDelay(|pace.waits|, l_delay);
            Clamp(w, maxdelay) > 0 && Paced(AfterSend(pace, Sent, Clamp(w, maxdelay)), timeout, maxdelay, w)
  {
    var n, least, w := |pace.waits|, LeastWait(maxdelay), NextDelay(|pace.waits|, l_delay);
    var c := Clamp(w, maxdelay);
    var next := AfterSend(pace, Sent, c);
    assert next.sends * least <= next.accounted by {
      OneMore(pace.sends, least);
    }
    assert (next.sends - 1) * least == pace.sends * least;
    assert w >= FIRST_DELAY && (n > 0 ==> l_delay <= w);
    assert forall i | 0 <= i < n :: pace.waits[i] <= c;
    assert NeverDecreases(next.waits);
  }

  lemma OneMore(n: nat, k: nat)
    ensures (n + 1) * k == n * k + k
  {
  }

  lemma FailedKeepsPace(pace: Pace, timeout: nat, maxdelay: nat, l_delay: int)
    requires maxdelay > 0 && Paced(pace, timeout, maxdelay, l_delay) && pace.accounted < timeout
    ensures WellPaced(AfterSend(pace, BadSocket, 0), timeout, maxdelay)
    ensures Paced(AfterSend(pace, SendFailed, 0), timeout, maxdelay, NextDelay(|pace.waits|, l_delay))
  {
    var least := LeastWait(maxdelay);
    assert (pace.sends + 1) * least == pace.sends * least + least;
  }

  // ----- and what the wire saw of them -----

  /** Reads off what was done at the wire: every send, and the first wait after each send that worked. */
  function PaceOf(log: seq<NetEvent>): Pace {
    if log == [] then AT_REST
    else
      var n := |log| - 1;
      var pace := PaceOf(log[..n]);
      match log[n]
      case Sending(_, Sent) => pace.(sends := pace.sends + 1)
      case Sending(_, BadSocket) => pace.(sends := pace.sends + 1, failed := pace.failed + 1)
      case Sending(_, SendFailed) => Pace(pace.sends + 1, pace.failed + 1, pace.waits, pace.accounted + 1000)
      case Asked(delay, _) =>
        if n > 0 && log[n - 1].Sending? && log[n - 1].result.Sent?
        then Pace(pace.sends, pace.failed, pace.waits + [delay], pace.accounted + delay)
        else pace
      case Got(_, _) => pace
  }

  lemma NothingLogged()
    ensures PaceOf([]) == AT_REST
  {
  }

  /** One send of these bytes and what came after it: a wait for `wait` first, and nothing if the send failed. */
  predicate OneSend(news: seq<NetEvent>, bytes: seq<byte>, sent: SendResult, wait: int) {
    && |news| > 0 && news[0] == Sending(bytes, sent)
    && if sent.Sent? then Waits(wait, news[1..]) && |news| > 1 else |news| == 1
  }

  lemma {:induction false} SendAndWaits(log: seq<NetEvent>, news: seq<NetEvent>, sent: SendResult, wait: int)
    requires |news| > 0 && news[0].Sending? && news[0].result == sent
    requires if sent.Sent? then |news| > 1 && news[1].Asked? && news[1].delay == wait else |news| == 1
    requires forall i | 1 <= i < |news| :: !news[i].Sending?
    ensures PaceOf(log + news) == AfterSend(PaceOf(log), sent, wait)
    decreases |news|
  {
    var n := |news| - 1;
    var init := (log + news)[..|log| + n];
    assert init == log + news[..n];
    if n == 0 {
      assert init == log;
    } else if n == 1 {
      assert init[..|log|] == log;
    } else {
      SendAndWaits(log, news[..n], sent, wait);
    }
  }

  lemma OneSendOn(log: seq<NetEvent>, news: seq<NetEvent>, bytes: seq<byte>, sent: SendResult, wait: int)
    requires OneSend(news, bytes, sent, wait)
    ensures PaceOf(log + news) == AfterSend(PaceOf(log), sent, wait)
  {
    if sent.Sent? {
      var waits := news[1..];
      assert CanFollow(wait, waits[..0], waits[0]) && waits[..0] == [];
      assert forall i | 1 <= i < |news| :: news[i] == waits[i - 1] && CanFollow(wait, waits[..i - 1], waits[i - 1]);
    }
    SendAndWaits(log, news, sent, wait);
  }

  // ----- one wait for an answer -----

  datatype Outcome = Accepted | Silence | Broken

  /** What is left of the delay: every interruption and every datagram takes off the time since the send. */
  function Remaining(delay: int, news: seq<NetEvent>): int {
    if news == [] then delay
    else
      var n := |news| - 1;
      var left := Remaining(delay, news[..n]);
      match news[n]
      case Asked(_, Interrupted(elapsed)) => left - elapsed
      case Got(_, elapsed) => left - elapsed
      case _ => left
  }

  /** There was no wait yet, or the last one was interrupted, or a datagram was taken. */
  predicate CanWaitOn(news: seq<NetEvent>) {
    var n := |news| - 1;
    n >= 0 ==> news[n].Got? || (news[n].Asked? && news[n].ended.Interrupted?)
  }

  /** A wait is for what is left of the delay, and a datagram comes where a wait says that there is one. */
  predicate CanFollow(delay: int, news: seq<NetEvent>, e: NetEvent) {
    var n := |news| - 1;
    match e
    case Asked(d, _) => d == Remaining(delay, news) > 0 && CanWaitOn(news)
    case Got(_, _) => n >= 0 && news[n].Asked? && news[n].ended.Ready?
    case Sending(_, _) => false
  }

  predicate Waits(delay: int, news: seq<NetEvent>) {
    forall i | 0 <= i < |news| :: CanFollow(delay, news[..i], news[i])
  }

  /** Nothing is left of the delay, or the last wait lasted to its end. */
  predicate WaitedOut(delay: int, news: seq<NetEvent>) {
    Remaining(delay, news) <= 0 || (news != [] && news[|news| - 1].Asked? && news[|news| - 1].ended.TimedOut?)
  }

  lemma WaitsSendNothing(delay: int, news: seq<NetEvent>)
    requires Waits(delay, news)
    ensures forall e | e in news :: !e.Sending?
  {
    forall i | 0 <= i < |news|
      ensures !news[i].Sending?
    {
      assert CanFollow(delay, news[..i], news[i]);
    }
  }

  lemma NothingWaited(delay: int)
    ensures Waits(delay, []) && Remaining(delay, []) == delay && CanWaitOn([])
  {
  }

  lemma WaitsGrow(delay: int, news: seq<NetEvent>, e: NetEvent)
    requires Waits(delay, news) && CanFollow(delay, news, e)
    ensures Waits(delay, news + [e])
    ensures Remaining(delay, news + [e]) ==
              match e {
                case Asked(_, Interrupted(elapsed)) => Remaining(delay, news) - elapsed
                case Got(_, elapsed) => Remaining(delay, news) - elapsed
                case _ => Remaining(delay, news)
              }
  {
    hide CanFollow;
    var all := news + [e];
    assert all[..|news|] == news;
    forall i | 0 <= i < |all|
      ensures CanFollow(delay, all[..i], all[i])
    {
      if i < |news| {
        assert all[..i] == news[..i];
      }
    }
  }

  /**
   * A datagram that is read and passes the tests: its number is the base but for the
   * last three bits, it says the command that was sent or ERR, and, if the command is
   * one at a position, the position that was sent.
   */
  predicate Answering(base: uint16, cmd: byte, pos: uint32, d: seq<byte>) {
    && Accepts(d)
    && (d[4] as int * 0x100 + d[5]) - d[5] % 8 == base
    && (d[0] == cmd || d[0] == CC_ERR)
    && (cmd in {CC_GET_DIR, CC_GET_FILE, CC_UP_LOAD, CC_GRAB_FILE, CC_INFO} ==>
          d[8] as int * 0x100_0000 + d[9] as int * 0x1_0000 + d[10] as int * 0x100 + d[11] == pos)
  }

  /** Nothing that was handed over was an answer. */
  predicate NoAnswer(base: uint16, cmd: byte, pos: uint32, news: seq<NetEvent>) {
    forall e | e in news && e.Got? :: !Answering(base, cmd, pos, e.bytes)
  }

  /** The last thing that was handed over is the first that was an answer, and this is what it says. */
  predicate AnsweredAtEnd(base: uint16, cmd: byte, pos: uint32, news: seq<NetEvent>, reply: Packet) {
    && news != []
    && (var n := |news| - 1;
        news[n].Got? && Answering(base, cmd, pos, news[n].bytes) && NoAnswer(base, cmd, pos, news[..n])
        && LengthFits(news[n].bytes) && Fields(news[n].bytes) == reply)
  }

  predicate NoneYet(base: uint16, cmd: byte, pos: uint32, news: seq<NetEvent>, dups: nat) {
    NoAnswer(base, cmd, pos, news) && dups == Strays(base, cmd, pos, news)
  }

  /** How a wait, or several, ended: with an answer, or with none; and `dups` counts what was read besides. */
  predicate Ended(outcome: Outcome, base: uint16, cmd: byte, pos: uint32, news: seq<NetEvent>, reply: Packet, dups: nat) {
    if outcome.Accepted? then AnsweredAtEnd(base, cmd, pos, news, reply) && dups == Strays(base, cmd, pos, news)
    else NoneYet(base, cmd, pos, news, dups)
  }

  lemma EndedJoin(outcome: Outcome, base: uint16, cmd: byte, pos: uint32, a: seq<NetEvent>, b: seq<NetEvent>,
                  reply: Packet, n: nat, k: nat)
    requires NoneYet(base, cmd, pos, a, n) && Ended(outcome, base, cmd, pos, b, reply, k)
    ensures Ended(outcome, base, cmd, pos, a + b, reply, n + k)
  {
    hide NoAnswer, AnsweredAtEnd, Strays;
    StraysJoin(base, cmd, pos, a, b);
    AnswersJoin(base, cmd, pos, a, b, reply);
  }

  /** A transaction takes the first answer it is handed, and gives up only if it was handed none. */
  predicate Concluded(rc: int, base: uint16, cmd: byte, pos: uint32, news: seq<NetEvent>, reply: Packet, dups: nat) {
    && (rc == 0 ==> AnsweredAtEnd(base, cmd, pos, news, reply) && dups == Strays(base, cmd, pos, news))
    && (rc == -1 ==> NoAnswer(base, cmd, pos, news))
  }

  lemma RefusedAtOnce(base: uint16, cmd: byte, pos: uint32, reply: Packet, dups: nat)
    ensures Concluded(-2, base, cmd, pos, [], reply, dups)
  {
  }

  lemma NoneIsSilence(base: uint16, cmd: byte, pos: uint32, news: seq<NetEvent>, reply: Packet, dups: nat)
    ensures NoneYet(base, cmd, pos, news, dups) <==> Ended(Silence, base, cmd, pos, news, reply, dups)
  {
  }

  lemma NoneAtFirst(base: uint16, cmd: byte, pos: uint32)
    ensures NoneYet(base, cmd, pos, [], 0)
  {
  }

  // An event that is not a datagram.
  lemma NoDatagram(base: uint16, cmd: byte, pos: uint32, news: seq<NetEvent>, e: NetEvent, dups: nat)
    requires NoneYet(base, cmd, pos, news, dups) && !e.Got?
    ensures NoneYet(base, cmd, pos, news + [e], dups)
  {
    assert (news + [e])[..|news|] == news;
  }

  // A datagram that is an answer, or is not.
  lemma OneDatagram(base: uint16, cmd: byte, pos: uint32, news: seq<NetEvent>, e: NetEvent, dups: nat)
    requires NoneYet(base, cmd, pos, news, dups) && e.Got?
    ensures !Answering(base, cmd, pos, e.bytes) ==>
              NoneYet(base, cmd, pos, news + [e], if Accepts(e.bytes) then dups + 1 else dups)
    ensures Answering(base, cmd, pos, e.bytes) && LengthFits(e.bytes) ==>
              Ended(Accepted, base, cmd, pos, news + [e], Fields(e.bytes), dups)
  {
    hide FspPacket.Accepts, FspPacket.LengthFits, FspPacket.Fields, Answering;
    assert (news + [e])[..|news|] == news;
  }

  /** How many datagrams were read, but were no answers. */
  function Strays(base: uint16, cmd: byte, pos: uint32, news: seq<NetEvent>): nat {
    if news == [] then 0
    else
      var n := |news| - 1;
      Strays(base, cmd, pos, news[..n]) +
      if news[n].Got? && Accepts(news[n].bytes) && !Answering(base, cmd, pos, news[n].bytes) then 1 else 0
  }

  lemma {:induction false} StraysJoin(base: uint16, cmd: byte, pos: uint32, a: seq<NetEvent>, b: seq<NetEvent>)
    ensures Strays(base, cmd, pos, a + b) == Strays(base, cmd, pos, a) + Strays(base, cmd, pos, b)
    decreases |b|
  {
    hide Answering, FspPacket.Accepts;
    if b == [] {
      assert a + b == a;
    } else {
      var n := |b| - 1;
      assert (a + b)[..|a + b| - 1] == a + b[..n];
      StraysJoin(base, cmd, pos, a, b[..n]);
    }
  }

  lemma AnswersJoin(base: uint16, cmd: byte, pos: uint32, a: seq<NetEvent>, b: seq<NetEvent>, reply: Packet)
    requires NoAnswer(base, cmd, pos, a)
    ensures NoAnswer(base, cmd, pos, b) ==> NoAnswer(base, cmd, pos, a + b)
    ensures AnsweredAtEnd(base, cmd, pos, b, reply) ==> AnsweredAtEnd(base, cmd, pos, a + b, reply)
  {
    hide Answering;
    if b != [] {
      assert (a + b)[..|a + b| - 1] == a + b[..|b| - 1];
    }
  }

  lemma AcceptedHasHeader(d: seq<byte>)
    requires Accepts(d)
    ensures |d| >= HSIZE
  {
  }

  lemma AnswerIsAccepted(base: uint16, cmd: byte, pos: uint32, d: seq<byte>)
    ensures Answering(base, cmd, pos, d) ==> Accepts(d)
  {
  }

  lemma AnswerMatches(base: uint16, req: Packet, d: seq<byte>)
    requires Answering(base, req.cmd, req.pos, d) && LengthFits(d)
    ensures Matches(base, req, Fields(d))
  {
    hide FspPacket.Accepts;
    TestsOfFields(base, req.cmd, req.pos, d);
  }

  // The tests as the fields of the packet show them.
  lemma TestsOfFields(base: uint16, cmd: byte, pos: uint32, d: seq<byte>)
    requires Accepts(d)
    ensures Answering(base, cmd, pos, d) <==>
              && BaseOf(Word(d, 4)) == base
              && (d[0] == cmd || d[0] == CC_ERR)
              && (Long(d, 8) == pos || !IsPositional(cmd))
  {
    assert Word(d, 4) % 8 == d[5] % 8;
  }

  datatype KeyEvent = Took(key: uint16) | Left(key: uint16)

  /** The key shared by all sessions of one server, under its semaphore. */
  class KeyCell {
    var semaphore: nat
    var cell: uint32
    ghost var log: seq<KeyEvent>

    constructor (key: uint32)
      ensures semaphore == 1 && cell == key && log == []
    {
      semaphore, cell, log := 1, key, [];
    }

    // The call blocks until the semaphore can be taken.
    method GetKey() returns (key: uint16)
      requires semaphore > 0
      modifies this
      ensures semaphore == old(semaphore) - 1 && cell == old(cell)
      ensures key == cell % 0x1_0000 && log == old(log) + [Took(key)]
    {
      semaphore := semaphore - 1;
      key := cell % 0x1_0000;
      log := log + [Took(key)];
    }

    method SetKey(key: uint16)
      modifies this
      ensures semaphore == old(semaphore) + 1 && cell == key
      ensures log == old(log) + [Left(key)]
    {
      cell := key;
      semaphore := semaphore + 1;
      log := log + [Left(key)];
    }
  }

  datatype Judged = Unreadable | Stray | Answer

  class Session {
    const lock: KeyCell
    const net: Network
    const password: Option<seq<byte>>
    var timeout: nat
    var maxdelay: nat
    var sq: uint16
    var dupes: nat
    var resends: nat
    var trips: nat
    var last_dupes: nat
    var last_resends: nat
    // How many transactions gave up, or were answered with an error.
    ghost var misses: nat

    constructor (lock: KeyCell, net: Network, random: nat, password: Option<seq<byte>>)
      requires net.Valid()
      ensures Valid() && this.lock == lock && this.net == net && this.password == password
      // In milliseconds: five minutes in all, and at most one minute for one answer.
      ensures timeout == 300000 && maxdelay == 60000 && sq == BaseOf(random)
      ensures dupes == 0 && resends == 0 && trips == 0 && misses == 0
    {
      this.lock, this.net, this.password := lock, net, password;
      timeout, maxdelay := 300000, 60000;
      sq := BaseOf(random);
      dupes, resends, trips, last_dupes, last_resends, misses := 0, 0, 0, 0, 0, 0;
    }

    ghost predicate Valid()
      reads this, net
    {
      // With a maximal delay of zero the retry loop would never end.
      net.Valid() && IsBase(sq) && maxdelay > 0
    }

    // What was done at the wire since its log had this length.
    ghost function PaceSince(start: nat): Pace
      requires start <= |net.log|
      reads net
    {
      PaceOf(net.log[start..])
    }

    // All of the timeout is accounted for, or a call has failed for good.
    ghost predicate GaveUp(start: nat, breaks: nat)
      requires start <= |net.log|
      reads this, net
    {
      PaceSince(start).accounted >= timeout || net.breaks > breaks
    }

    // What was logged since the log had this length.
    ghost function Since(start: nat): seq<NetEvent>
      requires start <= |net.log|
      reads net
    {
      net.log[start..]
    }

    /** The tests a datagram has to pass: it is unreadable, or a stray one, or the answer. */
    method Judge(p: Pkt, rpkt: Pkt, buf: array<byte>, r: nat) returns (verdict: Judged)
      requires p != rpkt && rpkt.buf.Length == SPACE && buf != rpkt.buf && r <= buf.Length
      modifies rpkt, rpkt.buf
      ensures var d := buf[..r];
              && verdict == (if Answering(sq, p.cmd, p.pos, d) then Answer else if Accepts(d) then Stray else Unreadable)
              && (Accepts(d) && LengthFits(d) ==> rpkt.Fits() && rpkt.View() == Fields(d))
    {
      hide FspPacket.Accepts, FspPacket.Fields, Answering;
      ghost var d := buf[..r];
      AnswerIsAccepted(sq, p.cmd, p.pos, d);
      var rc := rpkt.Read(buf, r);
      if rc < 0 {
        return Unreadable;
      }
      assert |d| >= HSIZE by {
        AcceptedHasHeader(d);
      }
      TestsOfFields(sq, p.cmd, p.pos, d);
      if BaseOf(rpkt.sq) != sq {
        return Stray;
      }
      if rpkt.cmd != p.cmd && rpkt.cmd != CC_ERR {
        return Stray;
      }
      if rpkt.pos != p.pos && IsPositional(p.cmd) {
        return Stray;
      }
      return Answer;
    }

    // The wait that began at `start`, for `delay`, has brought no answer and may go on for `left`.
    ghost predicate StillWaiting(p: Pkt, start: nat, delay: int, left: int, dups: nat)
      requires start <= |net.log|
      reads this, net, p
    {
      && Waits(delay, Since(start)) && Remaining(delay, Since(start)) == left
      && CanWaitOn(Since(start)) && NoneYet(sq, p.cmd, p.pos, Since(start), dups)
    }

    // One wait, and what it brings.
    method WaitOnce(p: Pkt, rpkt: Pkt, buf: array<byte>, w_delay: int, dups: nat, ghost start: nat, ghost delay: int)
      returns (outcome: Option<Outcome>, w_delay': int, dups': nat)
      requires net.Valid() && p != rpkt && p.buf.Length == SPACE && rpkt.buf.Length == SPACE
      requires p.buf != rpkt.buf && buf != p.buf && buf != rpkt.buf && buf.Length == MAXPACKET
      requires w_delay > 0 && start <= |net.log| && StillWaiting(p, start, delay, w_delay, dups)
      modifies net, rpkt, rpkt.buf, buf
      ensures net.Valid() && Extends(net.srv, old(net.trace), net.trace, {}) && old(net.log) < net.log
      ensures outcome.None? ==>
                && StillWaiting(p, start, delay, w_delay', dups') && net.breaks == old(net.breaks) && net.quota < old(net.quota)
      ensures outcome.Some? ==>
                && Waits(delay, Since(start)) && Ended(outcome.value, sq, p.cmd, p.pos, Since(start), rpkt.View(), dups')
                && (outcome.value.Silence? ==> WaitedOut(delay, Since(start)))
                && (if outcome.value.Broken? then net.breaks > old(net.breaks) else net.breaks == old(net.breaks))
                && (outcome.value.Accepted? ==>
                      rpkt.Fits() && Matches(sq, p.View(), rpkt.View()) && rpkt.View() in net.w.inbox)
    {
      hide FspNetwork.Extends, FspNetwork.Faithful, FspPacket.Accepts, FspPacket.Fields, FspPacket.Word, FspPacket.Long;
      hide Waits, Remaining, NoneYet, AnsweredAtEnd, Answering, Matches, FspPacket.Pkt.View, FspPacket.Pkt.Fits, FspPacket.LengthFits;
      ghost var news := Since(start);
      dups', w_delay' := dups, w_delay;
      var wait := net.Select(w_delay);
      ghost var waited := Asked(w_delay, wait);
      assert Since(start) == news + [waited];
      WaitsGrow(delay, news, waited);
      NoDatagram(sq, p.cmd, p.pos, news, waited, dups);
      match wait {
        case TimedOut => return Some(Silence), w_delay', dups';
        case Interrupted(elapsed) => return None, w_delay - elapsed, dups';
        case WaitFailed => return Some(Broken), w_delay', dups';
        case Ready =>
      }
      outcome, w_delay', dups' := TakeDatagram(p, rpkt, buf, w_delay, dups, start, delay);
    }

    // There is a datagram to be taken.
    method TakeDatagram(p: Pkt, rpkt: Pkt, buf: array<byte>, w_delay: int, dups: nat, ghost start: nat, ghost delay: int)
      returns (outcome: Option<Outcome>, w_delay': int, dups': nat)
      requires net.Valid() && p != rpkt && p.buf.Length == SPACE && rpkt.buf.Length == SPACE
      requires p.buf != rpkt.buf && buf != p.buf && buf != rpkt.buf && buf.Length == MAXPACKET
      requires start < |net.log| && net.log[|net.log| - 1].Asked? && net.log[|net.log| - 1].ended.Ready?
      requires Waits(delay, Since(start)) && Remaining(delay, Since(start)) == w_delay
      requires NoneYet(sq, p.cmd, p.pos, Since(start), dups)
      modifies net`log, net`breaks, rpkt, rpkt.buf, buf
      ensures net.Valid() && old(net.log) <= net.log
      ensures outcome.None? ==> StillWaiting(p, start, delay, w_delay', dups') && net.breaks == old(net.breaks)
      ensures outcome.Some? ==>
                && Waits(delay, Since(start)) && Ended(outcome.value, sq, p.cmd, p.pos, Since(start), rpkt.View(), dups')
                && !outcome.value.Silence?
                && (if outcome.value.Broken? then net.breaks > old(net.breaks) else net.breaks == old(net.breaks))
                && (outcome.value.Accepted? ==>
                      rpkt.Fits() && Matches(sq, p.View(), rpkt.View()) && rpkt.View() in net.w.inbox)
    {
      hide FspNetwork.Faithful, FspPacket.Accepts, FspPacket.Fields, FspPacket.Word, FspPacket.Long;
      hide Waits, Remaining, NoneYet, AnsweredAtEnd, Answering, Matches, FspPacket.Pkt.View, FspPacket.Pkt.Fits, FspPacket.LengthFits;
      ghost var news := Since(start);
      assert news[|news| - 1] == net.log[|net.log| - 1];
      var r, elapsed := net.Receive(buf);
      if r < 0 {
        return Some(Broken), w_delay, dups;
      }
      ghost var d := buf[..r];
      ghost var got := Got(d, elapsed);
      assert Since(start) == news + [got];
      WaitsGrow(delay, news, got);
      OneDatagram(sq, p.cmd, p.pos, news, got, dups);
      w_delay', dups' := w_delay - elapsed, dups;
      var verdict := Judge(p, rpkt, buf, r);
      if verdict.Answer? {
        AnswerIsAccepted(sq, p.cmd, p.pos, d);
        ServerRoundTripAll(net.w, d);
        AnswerMatches(sq, p.View(), d);
        return Some(Accepted), w_delay', dups';
      }
      outcome := None;
      if verdict.Stray? {
        dups' := dups + 1;
      }
    }

    /**
     * Waits for an answer to `p`, first for `delay`, and then as long as something is
     * left of it: what is unreadable or stray does not end the wait, and the first
     * answer does.
     */
    method AwaitReply(p: Pkt, rpkt: Pkt, buf: array<byte>, delay: int) returns (outcome: Outcome, dups: nat)
      requires net.Valid() && p != rpkt && p.buf.Length == SPACE && rpkt.buf.Length == SPACE
      requires p.buf != rpkt.buf && buf != p.buf && buf != rpkt.buf && buf.Length == MAXPACKET && delay > 0
      modifies net, rpkt, rpkt.buf, buf
      ensures net.Valid() && Extends(net.srv, old(net.trace), net.trace, {})
      ensures old(net.log) < net.log && Waits(delay, Since(|old(net.log)|))
      ensures Ended(outcome, sq, p.cmd, p.pos, Since(|old(net.log)|), rpkt.View(), dups)
      ensures outcome.Silence? ==> WaitedOut(delay, Since(|old(net.log)|))
      ensures if outcome.Broken? then net.breaks > old(net.breaks) else net.breaks == old(net.breaks)
      ensures outcome.Accepted? ==>
                rpkt.Fits() && Matches(sq, p.View(), rpkt.View()) && rpkt.View() in net.w.inbox
    {
      hide FspNetwork.Extends, FspNetwork.Faithful, Waits, Remaining, NoneYet, AnsweredAtEnd, CanWaitOn, Matches;
      var w_delay := delay;
      dups := 0;
      ghost var start := |net.log|;
      assert Since(start) == [];
      NothingWaited(delay);
      NoneAtFirst(sq, p.cmd, p.pos);
      ExtendsSelf(net.srv, net.trace, {});
      while true
        invariant net.Valid() && Extends(net.srv, old(net.trace), net.trace, {})
        invariant old(net.log) <= net.log && net.breaks == old(net.breaks)
        invariant StillWaiting(p, start, delay, w_delay, dups) && (w_delay == delay || old(net.log) < net.log)
        decreases net.quota
      {
        if w_delay <= 0 {
          return Silence, dups;
        }
        ghost var before := net.trace;
        var ended;
        ended, w_delay, dups := WaitOnce(p, rpkt, buf, w_delay, dups, start, delay);
        ExtendsJoin(net.srv, old(net.trace), before, net.trace, {});
        if ended.Some? {
          return ended.value, dups;
        }
      }
    }

    method Tag(p: Pkt, retry: nat, ghost req: Packet)
      requires IsBase(sq) && p.View() == req.(sq := p.sq)
      modifies p`sq
      ensures p.Fits() == old(p.Fits()) && p.View() == Attempt(req, sq, retry)
    {
      p.sq := Tagged(sq, retry);
    }

    // Tags the request with the number of the attempt, and sends it.
    method SendTagged(p: Pkt, buf: array<byte>, retry: nat, ghost req: Packet) returns (sent: SendResult)
      requires Valid() && p.buf.Length == SPACE && buf != p.buf && buf.Length == MAXPACKET
      requires Sendable(req) && p.View() == req.(sq := p.sq)
      modifies net, buf, p`sq
      ensures Valid() && p.View() == Attempt(req, sq, retry) && p.Fits() == old(p.Fits())
      ensures Extends(net.srv, old(net.trace), net.trace, Outgoing(p.Fits(), req, sq))
      ensures net.log == old(net.log) + [Sending(Datagram(p.Fits(), p.View()), sent)]
      ensures net.breaks == old(net.breaks) + if sent.BadSocket? then 1 else 0
    {
      hide FspPacket.ClientImage, FspPacket.ServerDecode, FspPacket.Pkt.View, FspNetwork.Faithful;
      hide FspNetwork.Extends, Attempts;
      Tag(p, retry, req);
      var l := p.Write(buf);
      ghost var out := Outgoing(p.Fits(), req, sq);
      AttemptIsTagged(req, sq, retry);
      if p.Fits() {
        ClientRoundTrip(p.View());
      } else {
        NothingSaid(buf[..l]);
      }
      sent := net.Send(buf[..l]);
      assert SaidBy(buf[..l]) <= out;
      ExtendsMore(net.srv, old(net.trace), net.trace, SaidBy(buf[..l]), out);
    }

    /** Sends the request once and, when that worked, waits for its answer. */
    method SendOnce(p: Pkt, rpkt: Pkt, buf: array<byte>, retry: nat, l_delay: int, ghost req: Packet)
      returns (sent: SendResult, outcome: Outcome, w_delay: int, dups: nat)
      requires Valid() && p != rpkt && p.buf.Length == SPACE && rpkt.buf.Length == SPACE
      requires p.buf != rpkt.buf && buf != p.buf && buf != rpkt.buf && buf.Length == MAXPACKET
      requires Sendable(req) && p.View() == req.(sq := p.sq)
      requires l_delay >= FIRST_DELAY || retry == 0
      modifies net, rpkt, rpkt.buf, buf, p`sq
      ensures Valid() && p.View() == Attempt(req, sq, retry)
      ensures p.Fits() == old(p.Fits()) && Extends(net.srv, old(net.trace), net.trace, Outgoing(p.Fits(), req, sq))
      ensures w_delay == NextDelay(retry, l_delay)
      ensures old(net.log) < net.log
      ensures OneSend(Since(|old(net.log)|), Datagram(p.Fits(), p.View()), sent, Clamp(w_delay, maxdelay))
      ensures Ended(outcome, sq, p.cmd, p.pos, Since(|old(net.log)|), rpkt.View(), dups)
      ensures sent.Sent? && outcome.Silence? ==> WaitedOut(Clamp(w_delay, maxdelay), Since(|old(net.log)| + 1))
      ensures net.breaks >= old(net.breaks)
      ensures (net.breaks > old(net.breaks) <==> sent.BadSocket? || outcome.Broken?) && (!sent.Sent? ==> outcome.Silence?)
      ensures outcome.Accepted? ==>
                && sent.Sent? && rpkt.Fits() && Matches(sq, p.View(), rpkt.View())
                && rpkt.View() in net.w.inbox
    {
      hide FspPacket.Pkt.View, FspPacket.Pkt.Fits, FspNetwork.Faithful, FspNetwork.Extends, Matches, Attempts, Outgoing;
      hide Waits, WaitedOut, NoneYet, AnsweredAtEnd, Datagram;
      ghost var start, out := |net.log|, Outgoing(p.Fits(), req, sq);
      sent := SendTagged(p, buf, retry, req);
      w_delay := if retry == 0 then FIRST_DELAY else l_delay * 3 / 2;
      ghost var event := net.log[start];
      assert Since(start) == [event];
      NoneAtFirst(sq, p.cmd, p.pos);
      NoDatagram(sq, p.cmd, p.pos, [], event, 0);
      assert [] + [event] == [event];
      if !sent.Sent? {
        return sent, Silence, w_delay, 0;
      }
      ghost var before := net.trace;
      outcome, dups := AwaitReply(p, rpkt, buf, Clamp(w_delay, maxdelay));
      assert Since(start) == [event] + Since(start + 1) && Since(start)[1..] == Since(start + 1);
      EndedJoin(outcome, sq, p.cmd, p.pos, [event], Since(start + 1), rpkt.View(), 0, dups);
      ExtendsMore(net.srv, before, net.trace, {}, out);
      ExtendsJoin(net.srv, old(net.trace), before, net.trace, out);
    }

    /**
     * One turn of the retry loop, in a transaction whose events at the wire begin at
     * `start`. A send that failed counts for a second, and does not use up its retry slot.
     */
    method RetryOnce(p: Pkt, rpkt: Pkt, buf: array<byte>, retry: nat, t_delay: nat, l_delay: int,
                     dups: nat, ghost req: Packet, ghost start: nat)
      returns (outcome: Outcome, retry': nat, t_delay': nat, l_delay': int, dups': nat)
      requires Valid() && p != rpkt && p.buf.Length == SPACE && rpkt.buf.Length == SPACE
      requires p.buf != rpkt.buf && buf != p.buf && buf != rpkt.buf && buf.Length == MAXPACKET
      requires Sendable(req) && p.View() == req.(sq := p.sq)
      requires start <= |net.log| && Paced(PaceSince(start), timeout, maxdelay, l_delay)
      requires PaceSince(start).accounted == t_delay < timeout && |PaceSince(start).waits| == retry
      requires NoneYet(sq, p.cmd, p.pos, Since(start), dups) && SendsOnly(p.Fits(), req, sq, Since(start))
      modifies net, rpkt, rpkt.buf, buf, p`sq
      ensures Valid() && p.View() == req.(sq := p.sq)
      ensures p.Fits() == old(p.Fits()) && Extends(net.srv, old(net.trace), net.trace, Outgoing(p.Fits(), req, sq))
      ensures old(net.log) < net.log && net.log[|old(net.log)|].Sending?
      ensures Ended(outcome, sq, p.cmd, p.pos, Since(start), rpkt.View(), dups') && SendsOnly(p.Fits(), req, sq, Since(start))
      ensures outcome.Silence? ==> NoneYet(sq, p.cmd, p.pos, Since(start), dups')
      ensures var sent, wait := net.log[|old(net.log)|].result, Clamp(NextDelay(retry, l_delay), maxdelay);
              && OneSend(Since(|old(net.log)|), Datagram(p.Fits(), Attempt(req, sq, retry)), sent, wait)
              && (sent.Sent? && outcome.Silence? ==> WaitedOut(wait, Since(|old(net.log)| + 1)))
              && PaceSince(start) == AfterSend(old(PaceSince(start)), sent, wait)
              && (sent.BadSocket? ==> outcome.Broken?)
              && (outcome.Broken? ==> net.breaks > old(net.breaks))
              && (sent.SendFailed? ==> outcome.Silence? && retry' == retry && t_delay' == t_delay + 1000)
              && (sent.Sent? && outcome.Silence? ==> retry' == retry + 1 && t_delay' == t_delay + wait)
              && (outcome.Accepted? ==> sent.Sent? && retry' == retry)
      ensures outcome.Accepted? ==>
                rpkt.Fits() && Matches(sq, p.View(), rpkt.View()) && rpkt.View() in net.w.inbox
      ensures WellPaced(PaceSince(start), timeout, maxdelay) && net.breaks >= old(net.breaks)
      ensures outcome.Silence? ==>
                && t_delay' > t_delay && Paced(PaceSince(start), timeout, maxdelay, l_delay')
                && PaceSince(start).accounted == t_delay' && |PaceSince(start).waits| == retry'
    {
      hide WellPaced, Matches, Attempts, Outgoing, NextDelay, Clamp, RawDelay, PaceOf, OneSend, FspNetwork.Extends;
      hide NoneYet, AnsweredAtEnd, WaitedOut, SendsOnly, Datagram;
      ghost var soFar := Since(start);
      retry', t_delay', l_delay' := retry, t_delay, l_delay;
      ghost var log, pace := net.log, PaceSince(start);
      var sent, w_delay, more;
      sent, outcome, w_delay, more := SendOnce(p, rpkt, buf, retry, l_delay, req);
      dups' := dups + more;
      assert Since(start) == soFar + Since(|log|);
      EndedJoin(if sent.BadSocket? then Broken else outcome, sq, p.cmd, p.pos, soFar, Since(|log|), rpkt.View(), dups, more);
      SendsMore(p.Fits(), req, sq, soFar, Since(|log|), retry, sent, Clamp(w_delay, maxdelay));
      SendKeepsPace(pace, timeout, maxdelay, l_delay, sent);
      SendLogged(log, start, Datagram(p.Fits(), Attempt(req, sq, retry)), sent, Clamp(w_delay, maxdelay));
      l_delay' := w_delay;
      if sent.BadSocket? {
        return Broken, retry', t_delay', l_delay', dups';
      }
      if sent.SendFailed? {
        t_delay' := t_delay + 1000;
        return Silence, retry', t_delay', l_delay', dups';
      }
      w_delay := Clamp(w_delay, maxdelay);
      t_delay' := t_delay + w_delay;
      if outcome.Silence? {
        retry' := retry + 1;
      }
    }

    lemma SendLogged(log: seq<NetEvent>, start: nat, bytes: seq<byte>, sent: SendResult, wait: int)
      requires start <= |log| < |net.log| && log <= net.log && OneSend(Since(|log|), bytes, sent, wait)
      ensures PaceSince(start) == AfterSend(PaceOf(log[start..]), sent, wait)
      ensures net.log[|log|] == Sending(bytes, sent)
    {
      assert net.log[start..] == log[start..] + Since(|log|);
      OneSendOn(log[start..], Since(|log|), bytes, sent, wait);
    }

    // Keeps the statistics and grabs the next key.
    method Finish(rpkt: Pkt, dups: nat, retry: nat)
      requires Valid()
      modifies this`last_dupes, this`last_resends, this`dupes, this`resends, this`trips, lock
      ensures Valid()
      ensures lock.semaphore == old(lock.semaphore) + 1
      ensures lock.cell == rpkt.key && lock.log == old(lock.log) + [Left(rpkt.key)]
      ensures trips == old(trips) + 1 && resends == old(resends) + retry && dupes == old(dupes) + dups
      ensures last_resends == retry && last_dupes == dups
    {
      last_dupes, last_resends := dups, retry;
      dupes, resends, trips := dupes + dups, resends + retry, trips + 1;
      lock.SetKey(rpkt.key);
    }

    /** The retry loop: it ends with an answer, at the timeout, or when the wire breaks. */
    method Attend(p: Pkt, rpkt: Pkt) returns (outcome: Outcome, retry: nat, dups: nat)
      requires Valid() && p != rpkt
      requires p.buf.Length == SPACE && rpkt.buf.Length == SPACE && p.buf != rpkt.buf
      modifies net, p`sq, rpkt, rpkt.buf
      ensures Valid() && p.View() == old(p.View()).(sq := p.sq) && p.Fits() == old(p.Fits())
      ensures Extends(net.srv, old(net.trace), net.trace, Outgoing(p.Fits(), old(p.View()), sq))
      ensures old(net.log) <= net.log && WellPaced(PaceSince(|old(net.log)|), timeout, maxdelay)
      ensures outcome.Accepted? ==>
                && rpkt.Fits() && Matches(sq, p.View(), rpkt.View()) && rpkt.View() in net.w.inbox
                && retry + 1 == |PaceSince(|old(net.log)|).waits|
      ensures Ended(outcome, sq, p.cmd, p.pos, Since(|old(net.log)|), rpkt.View(), dups)
      ensures SendsOnly(p.Fits(), old(p.View()), sq, Since(|old(net.log)|))
      ensures net.breaks >= old(net.breaks) && (!outcome.Accepted? ==> GaveUp(|old(net.log)|, old(net.breaks)))
    {
      hide WellPaced, Matches, Attempts, Outgoing, PaceOf, FspNetwork.Faithful, FspNetwork.Extends, FspPacket.Pkt.View;
      hide Ended, WaitedOut, NoneYet, OneSend, SendsOnly, Paced, NextDelay, Clamp, FspPacket.Pkt.Fits;
      var buf := new byte[MAXPACKET];
      var t_delay, l_delay := 0, 0;
      retry, dups := 0, 0;
      ghost var start := |net.log|;
      assert net.log[start..] == [];
      NothingLogged();
      ghost var req := p.View();
      ghost var out := Outgoing(p.Fits(), req, sq);
      ExtendsSelf(net.srv, net.trace, out);
      NoneAtFirst(sq, p.cmd, p.pos);
      NothingSent(p.Fits(), req, sq);
      AtRestIsPaced(timeout, maxdelay);
      while true
        invariant Valid() && p.View() == req.(sq := p.sq)
        invariant p.Fits() == old(p.Fits()) && out == Outgoing(p.Fits(), req, sq)
        invariant Extends(net.srv, old(net.trace), net.trace, out)
        invariant old(net.log) <= net.log && Paced(PaceSince(start), timeout, maxdelay, l_delay)
        invariant net.breaks >= old(net.breaks)
        invariant NoneYet(sq, p.cmd, p.pos, Since(start), dups) && SendsOnly(p.Fits(), req, sq, Since(start))
        invariant PaceSince(start).accounted == t_delay && |PaceSince(start).waits| == retry
        decreases timeout - t_delay
      {
        if t_delay >= timeout {
          NoneIsSilence(sq, p.cmd, p.pos, Since(start), rpkt.View(), dups);
          PacedIsWellPaced(PaceSince(start), timeout, maxdelay, l_delay);
          return Silence, retry, dups;
        }
        ghost var before := net.trace;
        outcome, retry, t_delay, l_delay, dups := RetryOnce(p, rpkt, buf, retry, t_delay, l_delay, dups, req, start);
        ExtendsJoin(net.srv, old(net.trace), before, net.trace, out);
        if !outcome.Silence? {
          return;
        }
      }
    }

    /** Everything after the key was taken: it is handed back on every way out. */
    method Exchange(p: Pkt, rpkt: Pkt) returns (rc: int)
      requires Valid() && p != rpkt
      requires p.buf.Length == SPACE && rpkt.buf.Length == SPACE && p.buf != rpkt.buf
      modifies this`sq, this`trips, this`resends, this`dupes, this`last_resends, this`last_dupes, this`misses
      modifies lock, net, p`sq, rpkt, rpkt.buf
      ensures Valid() && (rc == 0 || rc == -1)
      ensures p.View() == old(p.View()).(sq := p.sq)
      ensures sq != old(sq)
      ensures misses == old(misses) + if rc == 0 && rpkt.cmd != CC_ERR then 0 else 1
      ensures p.Fits() == old(p.Fits())
      ensures Extends(net.srv, old(net.trace), net.trace, Outgoing(p.Fits(), old(p.View()), sq))
      ensures lock.semaphore == old(lock.semaphore) + 1
      ensures lock.cell == (if rc == 0 then rpkt.key else p.key)
      ensures lock.log == old(lock.log) + [Left(if rc == 0 then rpkt.key else p.key)]
      ensures rc == 0 ==> rpkt.Fits() && Matches(sq, p.View(), rpkt.View()) && rpkt.View() in net.w.inbox
      ensures rc == 0 ==> trips == old(trips) + 1 && resends == old(resends) + last_resends && dupes == old(dupes) + last_dupes
      ensures old(net.log) <= net.log && WellPaced(PaceSince(|old(net.log)|), timeout, maxdelay)
      ensures Concluded(rc, sq, p.cmd, p.pos, Since(|old(net.log)|), rpkt.View(), last_dupes)
      ensures SendsOnly(p.Fits(), old(p.View()), sq, Since(|old(net.log)|))
      ensures rc == 0 ==> last_resends + 1 == |PaceSince(|old(net.log)|).waits|
      ensures net.breaks >= old(net.breaks) && (rc == -1 ==> GaveUp(|old(net.log)|, old(net.breaks)))
    {
      hide WellPaced, Matches, Attempts, Outgoing, PaceOf, FspNetwork.Extends, FspPacket.Pkt.View, FspPacket.Pkt.Fits;
      var random: nat := *;
      sq := NextBase(sq, random);
      var outcome, retry, dups := Attend(p, rpkt);
      misses := misses + if outcome.Accepted? && rpkt.cmd != CC_ERR then 0 else 1;
      if outcome.Accepted? {
        Finish(rpkt, dups, retry);
        return 0;
      }
      lock.SetKey(p.key);
      return -1;
    }

    /** fsp_transaction: one send + receive transaction with the server. */
    method Transaction(p: Pkt, rpkt: Pkt) returns (rc: int)
      requires Valid() && lock.semaphore > 0
      requires p.buf.Length == SPACE && rpkt.buf.Length == SPACE && (p != rpkt ==> p.buf != rpkt.buf)
      modifies this, lock, net, p`key, p`sq, rpkt, rpkt.buf
      ensures Valid() && timeout == old(timeout) && maxdelay == old(maxdelay)
      ensures misses == old(misses) + if p == rpkt || (rc == 0 && rpkt.cmd != CC_ERR) then 0 else 1
      ensures lock.semaphore == old(lock.semaphore)
      // A transaction onto itself is refused, and leaves everything alone.
      ensures rc == -2 <==> p == rpkt
      ensures p == rpkt ==> net.trace == old(net.trace) && net.log == old(net.log) && lock.log == old(lock.log) && sq == old(sq)
      ensures p != rpkt ==> rc == 0 || rc == -1
      // The request is unchanged but for its key and sequence number, and nothing else is sent.
      ensures p.View() == old(p.View()).(key := p.key, sq := p.sq)
      ensures p != rpkt ==>
                && p.key == old(lock.cell) % 0x1_0000
                && sq != old(sq)
                && Extends(net.srv, old(net.trace), net.trace, Outgoing(p.Fits(), old(p.View()).(key := p.key), sq))
      // The key is taken once and handed back once, whatever way the transaction ends.
      ensures p != rpkt ==>
                && lock.log == old(lock.log) + [Took(p.key), Left(if rc == 0 then rpkt.key else p.key)]
                && lock.cell == (if rc == 0 then rpkt.key else p.key)
      // An accepted answer is one the server gave, and passes all three tests.
      ensures rc == 0 ==> rpkt.Fits() && Matches(sq, p.View(), rpkt.View()) && rpkt.View() in net.w.inbox
      ensures rc == 0 ==> trips == old(trips) + 1 && resends == old(resends) + last_resends && dupes == old(dupes) + last_dupes
      // What it did at the wire is bounded, whatever way it ends.
      ensures old(net.log) <= net.log && WellPaced(PaceSince(|old(net.log)|), timeout, maxdelay)
      ensures Concluded(rc, sq, p.cmd, p.pos, Since(|old(net.log)|), rpkt.View(), last_dupes)
      ensures SendsOnly(p.Fits(), old(p.View()).(key := p.key), sq, Since(|old(net.log)|))
      ensures rc == 0 ==> last_resends + 1 == |PaceSince(|old(net.log)|).waits|
      // It only gives up at the timeout, or when the wire breaks.
      ensures net.breaks >= old(net.breaks) && (rc == -1 ==> GaveUp(|old(net.log)|, old(net.breaks)))
      ensures rc == -1 ==> PaceSince(|old(net.log)|).accounted >= timeout || net.breaks > old(net.breaks)
    {
      hide WellPaced, Matches, Attempts, Outgoing, FspNetwork.Extends;
      hide Concluded, SendsOnly, PaceOf, Datagram, AfterSend;
      if p == rpkt {
        assert net.log[|net.log|..] == [];
        AtRestIsPaced(timeout, maxdelay);
        NothingLogged();
        NothingSent(p.Fits(), p.View(), sq);
        RefusedAtOnce(sq, p.cmd, p.pos, rpkt.View(), last_dupes);
        return -2;
      }
      p.key := lock.GetKey();
      rc := Exchange(p, rpkt);
    }
  }

  lemma {:induction false} ServerRoundTripAll(w: World, d: seq<byte>)
    requires IsAnswerImage(w, d)
    ensures LengthFits(d) && Fields(d) in w.inbox
  {
    var reply :| reply in w.inbox && Sendable(reply) && d == ServerImage(reply);
    ServerRoundTrip(reply);
  }
}
