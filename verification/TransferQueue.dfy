/**
 * The queue of a transfer: the user moves entries up and down while the
 * transfer thread works its way through them.
 */
module TransferQueue {
  import opened Basics
  import opened GList

  // ----- the queue as a sequence -----

  /** Waiting to be started; marked as started, but its thread not yet there; or being worked through. */
  datatype Phase = Waiting | Launched | Running

  /** `cur` is the position of the file that the transfer's pointer is at; only a running transfer is at that file. */
  datatype Queue<T> = Queue(entries: seq<T>, cur: nat, phase: Phase)

  function Swapped<T>(s: seq<T>, i: nat): seq<T>
    requires i + 1 < |s|
  {
    s[i := s[i + 1]][i + 1 := s[i]]
  }

  lemma SwappedIs<T>(s: seq<T>, i: nat)
    requires i + 1 < |s|
    ensures Swapped(s, i) == s[..i] + [s[i + 1], s[i]] + s[i + 2..]
  {
  }

  // Where a file at position `cur` is after the swap.
  function Follow(cur: nat, i: nat): nat {
    if cur == i then i + 1 else if cur == i + 1 then i else cur
  }

  /** The pointer of a transfer that is marked as started must be at neither of the two entries. */
  predicate Free<T>(q: Queue<T>, i: nat) {
    q.phase.Waiting? || (q.cur != i && q.cur != i + 1)
  }

  function Exchanged<T>(q: Queue<T>, i: nat): Queue<T>
    requires i + 1 < |q.entries|
  {
    Queue(Swapped(q.entries, i), Follow(q.cur, i), q.phase)
  }

  function MovedUp<T>(q: Queue<T>, i: nat): Queue<T> {
    if 0 < i < |q.entries| && Free(q, i - 1) then Exchanged(q, i - 1) else q
  }

  function MovedDown<T>(q: Queue<T>, i: nat): Queue<T> {
    if i + 1 < |q.entries| && Free(q, i) then Exchanged(q, i) else q
  }

  /** An entry goes up past the one before it, unless the transfer is started and points at one of the two. */
  predicate IsMovedUp<T(==)>(s: seq<T>, cur: nat, started: bool, i: nat, t: seq<T>) {
    if 0 < i < |s| && (!started || (cur != i - 1 && cur != i)) then t == s[..i - 1] + [s[i], s[i - 1]] + s[i + 1..]
    else t == s
  }

  /** And it goes down past the one after it. */
  predicate IsMovedDown<T(==)>(s: seq<T>, cur: nat, started: bool, i: nat, t: seq<T>) {
    if i + 1 < |s| && (!started || (cur != i && cur != i + 1)) then t == s[..i] + [s[i + 1], s[i]] + s[i + 2..]
    else t == s
  }

  lemma WhatUpDoes<T>(q: Queue<T>, i: nat)
    ensures IsMovedUp(q.entries, q.cur, q.phase != Waiting, i, MovedUp(q, i).entries)
  {
    if 0 < i < |q.entries| {
      SwappedIs(q.entries, i - 1);
    }
  }

  lemma WhatDownDoes<T>(q: Queue<T>, i: nat)
    ensures IsMovedDown(q.entries, q.cur, q.phase != Waiting, i, MovedDown(q, i).entries)
  {
    if i + 1 < |q.entries| {
      SwappedIs(q.entries, i);
    }
  }

  /** Which moves are made, and what they make of the queue; the pointer stays with its entry. */
  lemma {:induction false} WhatMovesDo<T>(q: Queue<T>, i: nat)
    ensures IsMovedUp(q.entries, q.cur, q.phase != Waiting, i, MovedUp(q, i).entries)
    ensures IsMovedDown(q.entries, q.cur, q.phase != Waiting, i, MovedDown(q, i).entries)
    ensures forall p | p in {MovedUp(q, i), MovedDown(q, i)} ::
              && p.phase == q.phase
              && if q.cur < |q.entries| then p.cur < |p.entries| && p.entries[p.cur] == q.entries[q.cur] else p.cur == q.cur
  {
    WhatUpDoes(q, i);
    WhatDownDoes(q, i);
  }

  /** If the entry went up, moving it down again brings the queue back; and the other way round. */
  lemma UpAndDown<T>(q: Queue<T>, i: nat)
    requires 0 < i < |q.entries|
    ensures MovedUp(q, i) != q ==> MovedUp(q, i).entries[i - 1] == q.entries[i]
    ensures MovedDown(MovedUp(q, i), i - 1) == q
    ensures MovedUp(MovedDown(q, i - 1), i) == q
  {
    var s := q.entries;
    assert Swapped(Swapped(s, i - 1), i - 1) == s;
  }

  /** What the transfer has behind it. */
  function Behind<T>(q: Queue<T>): seq<T> {
    if q.phase.Running? && q.cur <= |q.entries| then q.entries[..q.cur] else []
  }

  /** The file the transfer is at, and what is still ahead. */
  function Ahead<T>(q: Queue<T>): seq<T> {
    if q.phase.Running? && q.cur <= |q.entries| then q.entries[q.cur..] else q.entries
  }

  lemma SwapKeepsAll<T>(s: seq<T>, i: nat)
    requires i + 1 < |s|
    ensures multiset(Swapped(s, i)) == multiset(s)
  {
  }

  // Two neighbours on the same side of a position can change places.
  lemma SwapOnOneSide<T>(s: seq<T>, i: nat, at: nat)
    requires i + 1 < |s| && at <= |s| && at != i + 1
    ensures multiset(Swapped(s, i)[..at]) == multiset(s[..at])
    ensures multiset(Swapped(s, i)[at..]) == multiset(s[at..])
  {
    if at <= i {
      assert Swapped(s, i)[..at] == s[..at];
      assert Swapped(s, i)[at..] == Swapped(s[at..], i - at);
      SwapKeepsAll(s[at..], i - at);
    } else {
      assert Swapped(s, i)[at..] == s[at..];
      assert Swapped(s, i)[..at] == Swapped(s[..at], i);
      SwapKeepsAll(s[..at], i);
    }
  }

  predicate InRange<T>(q: Queue<T>) {
    q.cur <= |q.entries|
  }

  /** The same files behind and ahead. */
  ghost predicate SameSides<T>(q: Queue<T>, p: Queue<T>) {
    multiset(Behind(p)) == multiset(Behind(q)) && multiset(Ahead(p)) == multiset(Ahead(q))
  }

  lemma SwapKeepsSides<T>(q: Queue<T>, i: nat)
    requires InRange(q) && i + 1 < |q.entries| && Free(q, i)
    ensures SameSides(q, Exchanged(q, i))
  {
    if q.phase.Running? {
      SwapOnOneSide(q.entries, i, q.cur);
    } else {
      SwapKeepsAll(q.entries, i);
    }
  }

  /** Moving entries takes no file across the one being transferred, and leaves that one where it is. */
  lemma {:induction false} MovesKeepSides<T>(q: Queue<T>, i: nat)
    requires InRange(q)
    ensures SameSides(q, MovedUp(q, i)) && InRange(MovedUp(q, i))
    ensures SameSides(q, MovedDown(q, i)) && InRange(MovedDown(q, i))
    ensures q.phase.Running? && q.cur < |q.entries| ==>
              MovedUp(q, i).entries[q.cur] == q.entries[q.cur] == MovedDown(q, i).entries[q.cur]
  {
    hide SameSides;
    SidesAreSame(q);
    if 0 < i < |q.entries| && Free(q, i - 1) {
      SwapKeepsSides(q, i - 1);
    }
    if i + 1 < |q.entries| && Free(q, i) {
      SwapKeepsSides(q, i);
    }
  }

  lemma SidesAreSame<T>(q: Queue<T>)
    ensures SameSides(q, q)
  {
  }

  // ----- runs -----

  datatype Move = Up(i: nat) | Down(i: nat) | Show | Launch | Start | Next

  function Step<T>(q: Queue<T>, m: Move): Queue<T> {
    match m
    case Up(i) => MovedUp(q, i)
    case Down(i) => MovedDown(q, i)
    case Show => if q.phase.Waiting? then q.(cur := 0) else q
    case Launch => if q.phase.Waiting? then q.(phase := Launched) else q
    case Start => if q.phase.Launched? then Queue(q.entries, 0, Running) else q
    case Next => if q.phase.Running? && q.cur < |q.entries| then q.(cur := q.cur + 1) else q
  }

  function Ran<T>(q: Queue<T>, moves: seq<Move>): Queue<T> {
    if moves == [] then q else Step(Ran(q, moves[..|moves| - 1]), moves[|moves| - 1])
  }

  /** The files the transfer was at and went on from, in order. */
  function Sent<T>(q: Queue<T>, moves: seq<Move>): seq<T> {
    if moves == [] then []
    else
      var last := |moves| - 1;
      var before := Ran(q, moves[..last]);
      Sent(q, moves[..last]) +
      (if moves[last].Next? && before.phase.Running? && before.cur < |before.entries| then [before.entries[before.cur]] else [])
  }

  /** In every run, what was sent is what is behind the transfer, and no file is lost or doubled. */
  lemma {:induction false} SentIsBehind<T>(q0: Queue<T>, moves: seq<Move>)
    requires q0.phase.Waiting? && InRange(q0)
    ensures var q := Ran(q0, moves);
            InRange(q) && multiset(Sent(q0, moves)) == multiset(Behind(q)) &&
            multiset(Behind(q)) + multiset(Ahead(q)) == multiset(q0.entries)
  {
    hide Behind, Ahead, Swapped;
    if moves == [] {
      AllAhead(q0);
    } else {
      var last := |moves| - 1;
      SentIsBehind(q0, moves[..last]);
      var q := Ran(q0, moves[..last]);
      match moves[last]
      case Up(i) => MovesKeepSides(q, i);
      case Down(i) => MovesKeepSides(q, i);
      case Show => NothingBehind(q);
      case Launch => NothingBehind(q);
      case Start => NothingBehind(q);
      case Next =>
        if q.phase.Running? && q.cur < |q.entries| {
          NextPasses(q);
        }
    }
  }

  lemma AllAhead<T>(q: Queue<T>)
    requires !q.phase.Running?
    ensures Behind(q) == [] && Ahead(q) == q.entries
  {
  }

  // Until the first file is gone on from, everything is ahead.
  lemma NothingBehind<T>(q: Queue<T>)
    ensures SameSides(q, Step(q, Show)) && SameSides(q, Step(q, Launch)) && SameSides(q, Step(q, Start))
  {
    assert q.entries[0..] == q.entries && q.entries[..0] == [];
  }

  lemma NextPasses<T>(q: Queue<T>)
    requires q.phase.Running? && q.cur < |q.entries|
    ensures var p := Step(q, Next); Behind(p) == Behind(q) + [q.entries[q.cur]] && Ahead(q) == [q.entries[q.cur]] + Ahead(p)
  {
  }

  /** A run that comes to the end of the queue has sent every file once, however the queue was changed on the way. */
  lemma EachFileOnce<T>(q0: Queue<T>, moves: seq<Move>)
    requires q0.phase.Waiting? && InRange(q0)
    requires var q := Ran(q0, moves); q.phase.Running? && q.cur == |q.entries|
    ensures multiset(Sent(q0, moves)) == multiset(q0.entries)
  {
    SentIsBehind(q0, moves);
  }

  // ----- the queue in memory -----

  lemma SwappedAt(s: seq<Entry>, i: nat)
    requires NoRepeats(s) && i + 1 < |s|
    ensures var t := Swapped(s, i);
            NoRepeats(t) && |t| == |s| && t[i] == s[i + 1] && t[i + 1] == s[i] &&
            (forall k | 0 <= k < |s| && k != i && k != i + 1 :: t[k] == s[k]) && forall n | n in t :: n in s
  {
  }

  // An entry away from the two that are swapped is none of those whose links change.
  lemma Apart(s: seq<Entry>, k: nat, i: nat)
    requires NoRepeats(s) && k < |s| && i + 1 < |s|
    ensures k != i ==> s[k] != s[i]
    ensures k != i + 1 ==> s[k] != s[i + 1]
    ensures i > 0 && k != i - 1 ==> s[k] != s[i - 1]
    ensures i + 2 < |s| && k != i + 2 ==> s[k] != s[i + 2]
  {
  }

  class Transfer {
    var files: Entry?
    var curfle: Entry?
    var started: bool
    // The transfer's thread is at work.
    ghost var running: bool
    ghost var entries: seq<Entry>
    // The position of `curfle`; the end if it is null.
    ghost var cur: nat

    ghost predicate Valid()
      reads this, entries
    {
      NoRepeats(entries) && Linked(entries) &&
      files == (if entries == [] then null else entries[0]) &&
      cur <= |entries| && curfle == (if cur == |entries| then null else entries[cur]) &&
      (running ==> started)
    }

    ghost function State(): Queue<Entry>
      reads this
    {
      Queue(entries, cur, if running then Running else if started then Launched else Waiting)
    }

    lemma PointsAt(i: nat)
      requires Valid() && i < |entries|
      ensures curfle == entries[i] <==> cur == i
    {
    }

    /** move_transfer_up */
    method MoveUp(entry: Entry, ghost i: nat)
      requires Valid() && i < |entries| && entries[i] == entry
      modifies this, entries
      ensures Valid() && State() == MovedUp(old(State()), i) && curfle == old(curfle) && started == old(started)
      ensures IsMovedUp(old(entries), old(cur), old(started), i, entries)
    {
      hide Swapped, Linked, IsMovedUp, Basics.NoRepeats;
      WhatUpDoes(State(), i);
      Neighbours(entries, i);
      PointsAt(i);
      if i > 0 {
        PointsAt(i - 1);
      }
      if entry.prev != null && (!started || (curfle != entry && curfle != entry.prev)) {
        Raise(entry, i);
      }
    }

    // Changes the links of the entry and its neighbours so that it comes before the one before it.
    method Raise(entry: Entry, ghost i: nat)
      requires Valid() && 0 < i < |entries| && entries[i] == entry
      modifies this`files, this`entries, this`cur, entries
      ensures Valid() && entries == Swapped(old(entries), i - 1) && cur == Follow(old(cur), i - 1)
    {
      hide Swapped, Linked;
      Neighbours(entries, i);
      SwappedAt(entries, i - 1);
      Neighbours(entries, i - 1);
      if entry.prev.prev == null {
        SecondToFront(entry, entries);
      } else {
        UpInside(entry, entries, i);
      }
      entries, cur := Swapped(entries, i - 1), Follow(cur, i - 1);
    }

    /** move_transfer_down */
    method MoveDown(entry: Entry, ghost i: nat)
      requires Valid() && i < |entries| && entries[i] == entry
      modifies this, entries
      ensures Valid() && State() == MovedDown(old(State()), i) && curfle == old(curfle) && started == old(started)
      ensures IsMovedDown(old(entries), old(cur), old(started), i, entries)
    {
      hide Swapped, Linked, IsMovedDown, Basics.NoRepeats;
      WhatDownDoes(State(), i);
      Neighbours(entries, i);
      PointsAt(i);
      if i + 1 < |entries| {
        PointsAt(i + 1);
      }
      if entry.next != null && (!started || (curfle != entry && curfle != entry.next)) {
        Lower(entry, i);
      }
    }

    // Changes the links of the entry and its neighbours so that it comes behind the one behind it.
    method Lower(entry: Entry, ghost i: nat)
      requires Valid() && i + 1 < |entries| && entries[i] == entry
      modifies this`files, this`entries, this`cur, entries
      ensures Valid() && entries == Swapped(old(entries), i) && cur == Follow(old(cur), i)
    {
      hide Swapped, Linked;
      Neighbours(entries, i);
      SwappedAt(entries, i);
      if entry.prev == null {
        FirstToSecond(entry, entries);
      } else {
        DownInside(entry, entries, i);
      }
      entries, cur := Swapped(entries, i), Follow(cur, i);
    }

    // The entry was the second, and becomes the first.
    method SecondToFront(entry: Entry, ghost s: seq<Entry>)
      requires NoRepeats(s) && Linked(s) && |s| > 1 && s[1] == entry
      modifies this`files, s
      ensures Linked(Swapped(s, 0))
      ensures files == entry
    {
      Neighbours(s, 1);
      var firstentry := entry.prev;
      var lastentry := entry.next;
      files := entry;
      entry.next := firstentry;
      files.prev := null;
      firstentry.prev := entry;
      firstentry.next := lastentry;
      if lastentry != null {
        lastentry.prev := firstentry;
      }
      ghost var after := Swapped(s, 0);
      forall k | 0 <= k < |after|
        ensures after[k].prev == Before(after, k) && after[k].next == After(after, k)
      {
        Apart(s, k, 0);
      }
    }

    // Of the two entries, there is one before them.
    static method UpInside(entry: Entry, ghost s: seq<Entry>, ghost i: nat)
      requires NoRepeats(s) && Linked(s) && 1 < i < |s| && s[i] == entry
      modifies s
      ensures Linked(Swapped(s, i - 1))
    {
      Neighbours(s, i);
      Neighbours(s, i - 1);
      var firstentry := entry.prev.prev;
      var secentry := entry.prev;
      var lastentry := entry.next;
      firstentry.next := entry;
      entry.prev := firstentry;
      entry.next := secentry;
      secentry.prev := entry;
      secentry.next := lastentry;
      if lastentry != null {
        lastentry.prev := secentry;
      }
      ghost var after := Swapped(s, i - 1);
      forall k | 0 <= k < |after|
        ensures after[k].prev == Before(after, k) && after[k].next == After(after, k)
      {
        Apart(s, k, i - 1);
      }
    }

    // The entry was the first, and becomes the second.
    method FirstToSecond(entry: Entry, ghost s: seq<Entry>)
      requires NoRepeats(s) && Linked(s) && |s| > 1 && s[0] == entry
      modifies this`files, s
      ensures Linked(Swapped(s, 0))
      ensures files == s[1]
    {
      Neighbours(s, 0);
      Neighbours(s, 1);
      var firstentry := entry.next;
      var lastentry := entry.next.next;
      files := firstentry;
      files.prev := null;
      files.next := entry;
      entry.prev := files;
      entry.next := lastentry;
      if lastentry != null {
        lastentry.prev := entry;
      }
      ghost var after := Swapped(s, 0);
      forall k | 0 <= k < |after|
        ensures after[k].prev == Before(after, k) && after[k].next == After(after, k)
      {
        Apart(s, k, 0);
      }
    }

    // Of the two entries, there is one before them.
    static method DownInside(entry: Entry, ghost s: seq<Entry>, ghost i: nat)
      requires NoRepeats(s) && Linked(s) && 0 < i < |s| - 1 && s[i] == entry
      modifies s
      ensures Linked(Swapped(s, i))
    {
      Neighbours(s, i);
      Neighbours(s, i + 1);
      var firstentry := entry.prev;
      var secentry := entry.next;
      var lastentry := entry.next.next;
      firstentry.next := secentry;
      secentry.prev := firstentry;
      secentry.next := entry;
      entry.prev := secentry;
      entry.next := lastentry;
      if lastentry != null {
        lastentry.prev := entry;
      }
      ghost var after := Swapped(s, i);
      forall k | 0 <= k < |after|
        ensures after[k].prev == Before(after, k) && after[k].next == After(after, k)
      {
        Apart(s, k, i);
      }
    }

    // Shown in the window, the transfer points at its first entry.
    method Show()
      requires Valid() && !started
      modifies this`curfle, this`cur
      ensures Valid() && State() == Step(old(State()), Move.Show) && curfle == files && cur == 0
    {
      curfle := files;
      cur := 0;
    }

    // Marks the transfer as started, with its pointer wherever that is, and has its thread created.
    method Launch()
      requires Valid() && !started
      modifies this`started
      ensures Valid() && State() == Step(old(State()), Move.Launch) && started
    {
      started := true;
    }

    // The transfer's thread starts with the first entry.
    method Begin()
      requires Valid() && started && !running
      modifies this`curfle, this`cur, this`running
      ensures Valid() && State() == Queue(old(State()).entries, 0, Running) && curfle == files
    {
      curfle := files;
      cur, running := 0, true;
    }

    // _gftpui_common_next_file_in_trans
    method Advance() returns (done: Entry)
      requires Valid() && running && curfle != null
      modifies this`curfle, this`cur
      ensures Valid() && State() == Queue(old(entries), old(cur) + 1, Running) && done == old(entries[cur])
    {
      Neighbours(entries, cur);
      done := curfle;
      curfle := curfle.next;
      cur := cur + 1;
    }
  }
}
