/** The doubly linked lists of GLib, as they are used here. */
module GList {
  class Entry {
    const data: string
    var prev: Entry?
    var next: Entry?

    constructor (data: string)
      ensures this.data == data && prev == null && next == null
    {
      this.data := data;
      prev, next := null, null;
    }
  }

  ghost function Before(s: seq<Entry>, i: nat): Entry? {
    if 0 < i <= |s| then s[i - 1] else null
  }

  ghost function After(s: seq<Entry>, i: nat): Entry? {
    if i + 1 < |s| then s[i + 1] else null
  }

  ghost predicate Linked(s: seq<Entry>)
    reads s
  {
    forall i | 0 <= i < |s| :: s[i].prev == Before(s, i) && s[i].next == After(s, i)
  }

  lemma Neighbours(s: seq<Entry>, i: nat)
    requires Linked(s) && i < |s|
    ensures s[i].prev == Before(s, i) && s[i].next == After(s, i)
  {
  }
}
