/**
 * Any number of sessions sharing one key cell under one semaphore. Each session
 * goes through the small steps of taking and handing back the key, in any
 * interleaving with the others.
 */
module FspKeyLock {
  import opened Bytes
  import opened FspSession

  /** How a transaction ended: with the key of an accepted answer, or without one. */
  datatype Exit = Answered(key: uint16) | GaveUp

  // Entered: past the semaphore, key not read yet. Stored: key written, semaphore not raised yet.
  datatype Phase = Idle | Entered | Holding(key: uint16) | Stored

  datatype Sys = Sys(semaphore: nat, cell: uint32, phase: map<nat, Phase>, log: seq<KeyEvent>)

  datatype Action = Lower(who: nat) | ReadKey(who: nat) | WriteKey(who: nat, exit: Exit) | Raise(who: nat)

  function KeyLeft(own: uint16, exit: Exit): uint16 {
    match exit
    case Answered(key) => key
    case GaveUp => own
  }

  predicate Enabled(s: Sys, a: Action) {
    a.who in s.phase &&
    match a
    case Lower(i) => s.phase[i].Idle? && s.semaphore > 0
    case ReadKey(i) => s.phase[i].Entered?
    case WriteKey(i, _) => s.phase[i].Holding?
    case Raise(i) => s.phase[i].Stored?
  }

  function Do(s: Sys, a: Action): Sys
    requires Enabled(s, a)
  {
    match a
    case Lower(i) => s.(semaphore := s.semaphore - 1, phase := s.phase[i := Entered])
    case ReadKey(i) =>
      var key := s.cell % 0x1_0000;
      s.(phase := s.phase[i := Holding(key)], log := s.log + [Took(key)])
    case WriteKey(i, exit) =>
      var key := KeyLeft(s.phase[i].key, exit);
      s.(cell := key, phase := s.phase[i := Stored], log := s.log + [Left(key)])
    case Raise(i) => s.(semaphore := s.semaphore + 1, phase := s.phase[i := Idle])
  }

  predicate CanRun(s: Sys, actions: seq<Action>)
    decreases |actions|
  {
    actions == [] || (Enabled(s, actions[0]) && CanRun(Do(s, actions[0]), actions[1..]))
  }

  function Run(s: Sys, actions: seq<Action>): Sys
    requires CanRun(s, actions)
    decreases |actions|
  {
    if actions == [] then s else Run(Do(s, actions[0]), actions[1..])
  }

  predicate Initial(s: Sys) {
    s.semaphore == 1 && s.log == [] && forall i | i in s.phase :: s.phase[i].Idle?
  }

  predicate Inside(s: Sys, i: nat) {
    i in s.phase && !s.phase[i].Idle?
  }

  /** Nobody is between taking and handing back the key, or exactly one is. */
  ghost predicate OneAtATime(s: Sys) {
    || (s.semaphore == 1 && forall i :: !Inside(s, i))
    || (s.semaphore == 0 && exists h :: Inside(s, h) && forall i :: Inside(s, i) ==> i == h)
  }

  // The key the next one to read will get, given the key the cell started with.
  function LastLeft(log: seq<KeyEvent>, first: uint16): uint16 {
    if log == [] then first else
      match log[|log| - 1]
      case Took(key) => LastLeft(log[..|log| - 1], first)
      case Left(key) => key
  }

  /** Takings and handings-back alternate, and each taking gets what was last handed back. */
  predicate HandedOn(log: seq<KeyEvent>, first: uint16) {
    log == [] || (
      var before, last := log[..|log| - 1], log[|log| - 1];
      && HandedOn(before, first)
      && match last
         case Took(key) => Closed(before) && key == LastLeft(before, first)
         case Left(_) => !Closed(before))
  }

  predicate Closed(log: seq<KeyEvent>) {
    log == [] || log[|log| - 1].Left?
  }

  predicate InHand(p: Phase) {
    p.Holding?
  }

  ghost predicate Sound(s: Sys, first: uint16) {
    && OneAtATime(s)
    && HandedOn(s.log, first)
    && s.cell % 0x1_0000 == LastLeft(s.log, first)
    && (Closed(s.log) <==> forall i | i in s.phase :: !InHand(s.phase[i]))
    && forall i | i in s.phase && s.phase[i].Holding? :: s.log != [] && s.log[|s.log| - 1] == Took(s.phase[i].key)
  }

  lemma StepKeepsSound(s: Sys, a: Action, first: uint16)
    requires Sound(s, first) && Enabled(s, a)
    ensures Sound(Do(s, a), first)
  {
    var t := Do(s, a);
    assert Inside(s, a.who) || a.Lower?;
    forall i | Inside(t, i)
      ensures Inside(s, i) || i == a.who
    {
    }
    if a.Raise? {
      assert forall i :: Inside(s, i) ==> i == a.who;
    } else {
      assert Inside(t, a.who) && forall i :: Inside(t, i) ==> i == a.who;
    }
    if a.ReadKey? || a.WriteKey? {
      assert t.log[..|t.log| - 1] == s.log;
    }
    assert forall i | i in t.phase && i != a.who :: t.phase[i] == s.phase[i] && !Inside(t, i);
  }

  lemma {:induction false} RunKeepsSound(s: Sys, actions: seq<Action>, first: uint16)
    requires Sound(s, first) && CanRun(s, actions)
    ensures Sound(Run(s, actions), first)
    decreases |actions|
  {
    if actions != [] {
      StepKeepsSound(s, actions[0], first);
      RunKeepsSound(Do(s, actions[0]), actions[1..], first);
    }
  }

  /**
   * In every interleaving of any number of sessions, at most one of them is
   * between taking and handing back the key, the two alternate, and each
   * transaction starts with the key the last one to finish left behind.
   */
  lemma KeyIsHandedOn(s: Sys, actions: seq<Action>)
    requires Initial(s) && CanRun(s, actions)
    ensures var t := Run(s, actions);
            && (forall i, j | Inside(t, i) && Inside(t, j) :: i == j)
            && HandedOn(t.log, s.cell % 0x1_0000)
            && t.cell % 0x1_0000 == LastLeft(t.log, s.cell % 0x1_0000)
  {
    assert Sound(s, s.cell % 0x1_0000);
    RunKeepsSound(s, actions, s.cell % 0x1_0000);
  }

  /**
   * What Session.Transaction promises about the semaphore, the cell and the log
   * is what one session's four steps in a row do.
   */
  lemma TransactionIsARun(s: Sys, i: nat, exit: Exit)
    requires i in s.phase && s.phase[i].Idle? && s.semaphore > 0
    ensures var actions := [Lower(i), ReadKey(i), WriteKey(i, exit), Raise(i)];
            var own := s.cell % 0x1_0000;
            && CanRun(s, actions)
            && Run(s, actions) == Sys(s.semaphore, KeyLeft(own, exit), s.phase,
                                      s.log + [Took(own), Left(KeyLeft(own, exit))])
  {
    var own := s.cell % 0x1_0000;
    var s1 := Do(s, Lower(i));
    var s2 := Do(s1, ReadKey(i));
    var s3 := Do(s2, WriteKey(i, exit));
    var s4 := Do(s3, Raise(i));
    assert s4.phase == s.phase;
    assert [] == [Raise(i)][1..];
    RunGoesOn(s3, Raise(i), [], s4);
    RunGoesOn(s2, WriteKey(i, exit), [Raise(i)], s4);
    RunGoesOn(s1, ReadKey(i), [WriteKey(i, exit), Raise(i)], s4);
    RunGoesOn(s, Lower(i), [ReadKey(i), WriteKey(i, exit), Raise(i)], s4);
    assert [Lower(i)] + [ReadKey(i), WriteKey(i, exit), Raise(i)] == [Lower(i), ReadKey(i), WriteKey(i, exit), Raise(i)];
    assert [ReadKey(i)] + [WriteKey(i, exit), Raise(i)] == [ReadKey(i), WriteKey(i, exit), Raise(i)];
  }

  lemma RunGoesOn(s: Sys, a: Action, rest: seq<Action>, t: Sys)
    requires Enabled(s, a) && CanRun(Do(s, a), rest) && Run(Do(s, a), rest) == t
    ensures CanRun(s, [a] + rest) && Run(s, [a] + rest) == t
  {
    assert ([a] + rest)[1..] == rest;
  }
}
