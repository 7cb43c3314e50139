/**
 * The history behind an input line: the strings used last, each once, with the
 * latest first.
 */
module History {
  import opened Basics
  import opened GList

  const MAX_HIST_LEN := 10

  // ----- what the history should be -----

  function Without(s: seq<string>, str: string): seq<string> {
    if s == [] then [] else (if s[0] == str then [] else [s[0]]) + Without(s[1..], str)
  }

  /** All strings that were used, each once, with the one used last first; empty strings do not count. */
  function Latest(inputs: seq<string>): seq<string> {
    if inputs == [] then []
    else
      var str := inputs[|inputs| - 1];
      var before := Latest(inputs[..|inputs| - 1]);
      if str == "" then before else [str] + Without(before, str)
  }

  function Shortened(s: seq<string>, n: nat): seq<string> {
    if |s| > n then s[..n] else s
  }

  /** The number of the input that used the string last; none is 0. */
  function LastUse(inputs: seq<string>, str: string): nat {
    if inputs == [] then 0
    else if inputs[|inputs| - 1] == str then |inputs|
    else LastUse(inputs[..|inputs| - 1], str)
  }

  lemma {:induction false} WithoutKeeps(s: seq<string>, str: string)
    ensures forall x :: x in Without(s, str) <==> x in s && x != str
    ensures str !in s ==> Without(s, str) == s
    ensures |Without(s, str)| <= |s|
  {
    if s != [] {
      WithoutKeeps(s[1..], str);
      assert s == [s[0]] + s[1..];
    }
  }

  /** The order of the uses is kept, by whatever number they go. */
  ghost predicate ByUse(s: seq<string>, inputs: seq<string>) {
    forall i, j | 0 <= i < j < |s| :: LastUse(inputs, s[i]) > LastUse(inputs, s[j])
  }

  lemma {:induction false} WithoutByUse(s: seq<string>, str: string, inputs: seq<string>)
    requires ByUse(s, inputs)
    ensures ByUse(Without(s, str), inputs)
  {
    if s != [] {
      WithoutByUse(s[1..], str, inputs);
      WithoutKeeps(s[1..], str);
      var rest := Without(s[1..], str);
      forall j | 0 <= j < |rest|
        ensures LastUse(inputs, s[0]) > LastUse(inputs, rest[j])
      {
        assert rest[j] in rest;
        var k :| 0 <= k < |s[1..]| && s[1..][k] == rest[j];
        assert s[k + 1] == rest[j];
      }
    }
  }

  lemma {:induction false} LastUseInRange(inputs: seq<string>, str: string)
    ensures LastUse(inputs, str) <= |inputs| && (LastUse(inputs, str) > 0 <==> str in inputs)
  {
    if inputs != [] {
      LastUseInRange(inputs[..|inputs| - 1], str);
      assert inputs == inputs[..|inputs| - 1] + [inputs[|inputs| - 1]];
    }
  }

  /** Latest holds exactly the strings that were used. */
  lemma {:induction false} LatestIsUsed(inputs: seq<string>)
    ensures forall x :: x in Latest(inputs) <==> x in inputs && x != ""
  {
    if inputs != [] {
      var n := |inputs| - 1;
      LatestIsUsed(inputs[..n]);
      WithoutKeeps(Latest(inputs[..n]), inputs[n]);
      assert inputs == inputs[..n] + [inputs[n]];
    }
  }

  /** The later the last use of a string, the further in front it is. */
  lemma {:induction false} LatestIsByUse(inputs: seq<string>)
    ensures ByUse(Latest(inputs), inputs)
  {
    if inputs != [] {
      var n := |inputs| - 1;
      var str, before := inputs[n], Latest(inputs[..n]);
      LatestIsByUse(inputs[..n]);
      LatestIsUsed(inputs[..n]);
      var rest := if str == "" then before else Without(before, str);
      WithoutKeeps(before, str);
      WithoutByUse(before, str, inputs[..n]);
      OneMoreUse(rest, inputs);
    }
  }

  lemma OneMoreUse(rest: seq<string>, inputs: seq<string>)
    requires inputs != [] && inputs[|inputs| - 1] !in rest && ByUse(rest, inputs[..|inputs| - 1])
    ensures ByUse(rest, inputs) && ByUse([inputs[|inputs| - 1]] + rest, inputs)
  {
    var n := |inputs| - 1;
    forall i | 0 <= i < |rest|
      ensures LastUse(inputs, rest[i]) == LastUse(inputs[..n], rest[i]) <= n
    {
      assert rest[i] in rest;
      LastUseInRange(inputs[..n], rest[i]);
    }
  }

  lemma {:induction false} WithoutAt(s: seq<string>, k: nat)
    requires NoRepeats(s) && k < |s|
    ensures Without(s, s[k]) == s[..k] + s[k + 1..]
  {
    if k == 0 {
      WithoutKeeps(s[1..], s[0]);
    } else {
      WithoutAt(s[1..], k - 1);
      assert s[1..][..k - 1] == s[1..k] && s[1..][k..] == s[k + 1..];
      assert s[..k] == [s[0]] + s[1..k];
    }
  }

  /** What using a string does to a history that is at most `MAX_HIST_LEN` long. */
  function Used(items: seq<string>, str: string): seq<string> {
    if str == "" then items
    else if str in items then [str] + Without(items, str)
    else [str] + Shortened(items, MAX_HIST_LEN - 1)
  }

  /** Dropping what is old never makes a difference: a short history is the beginning of a long one. */
  lemma UsedIsLatest(inputs: seq<string>, str: string)
    ensures Used(Shortened(Latest(inputs), MAX_HIST_LEN), str) == Shortened(Latest(inputs + [str]), MAX_HIST_LEN)
  {
    hide Latest, Without;
    var all := Latest(inputs);
    LatestNext(inputs, str);
    LatestIsByUse(inputs);
    UsedOfBeginning(all, str);
  }

  lemma LatestNext(inputs: seq<string>, str: string)
    ensures Latest(inputs + [str]) == if str == "" then Latest(inputs) else [str] + Without(Latest(inputs), str)
  {
    assert (inputs + [str])[..|inputs|] == inputs;
  }

  lemma UsedOfBeginning(all: seq<string>, str: string)
    requires NoRepeats(all)
    ensures Used(Shortened(all, MAX_HIST_LEN), str)
         == if str == "" then Shortened(all, MAX_HIST_LEN) else Shortened([str] + Without(all, str), MAX_HIST_LEN)
  {
    hide Without, Shortened;
    var items := Shortened(all, MAX_HIST_LEN);
    Beginning(all, MAX_HIST_LEN);
    if str in all {
      var k :| 0 <= k < |all| && all[k] == str;
      WithoutAt(all, k);
      if k < MAX_HIST_LEN {
        WithoutAt(items, k);
        ShortenedWithout(all, str, k, MAX_HIST_LEN);
      } else {
        ShortenedBefore(all, str, k, MAX_HIST_LEN);
      }
    } else {
      WithoutKeeps(all, str);
      ShortenedBehind(all, str, MAX_HIST_LEN);
    }
  }

  lemma Beginning(s: seq<string>, n: nat)
    ensures var t := Shortened(s, n);
            |t| == (if |s| > n then n else |s|) && (forall i | 0 <= i < |t| :: t[i] == s[i]) && forall x | x in t :: x in s
  {
  }

  // Where the string is among the first n, it does not matter what is behind these.
  lemma ShortenedWithout(s: seq<string>, str: string, k: nat, n: nat)
    requires k < n && k < |s|
    ensures var t := Shortened(s, n); [str] + (t[..k] + t[k + 1..]) == Shortened([str] + (s[..k] + s[k + 1..]), n)
  {
  }

  lemma ShortenedBefore(s: seq<string>, str: string, k: nat, n: nat)
    requires 0 < n <= k < |s|
    ensures [str] + Shortened(Shortened(s, n), n - 1) == Shortened([str] + (s[..k] + s[k + 1..]), n)
  {
  }

  lemma ShortenedBehind(s: seq<string>, str: string, n: nat)
    requires 0 < n
    ensures [str] + Shortened(Shortened(s, n), n - 1) == Shortened([str] + s, n)
  {
  }

  // ----- the list -----

  function Data(s: seq<Entry>): (d: seq<string>)
    ensures |d| == |s| && forall i | 0 <= i < |s| :: d[i] == s[i].data
  {
    seq(|s|, i requires 0 <= i < |s| => s[i].data)
  }

  lemma UsedAgain(items: seq<string>, k: nat)
    requires NoRepeats(items) && k < |items| && items[k] != ""
    ensures Used(items, items[k]) == Promoted(items, k)
    ensures k == 0 ==> Promoted(items, k) == items
  {
    WithoutAt(items, k);
  }

  function Promoted<T>(s: seq<T>, k: nat): seq<T>
    requires k < |s|
  {
    [s[k]] + s[..k] + s[k + 1..]
  }

  lemma PromotedAt(s: seq<Entry>, k: nat)
    requires NoRepeats(s) && 0 < k < |s|
    ensures var t := Promoted(s, k);
            t == [s[k]] + (s[..k] + s[k + 1..]) && NoRepeats(s[..k] + s[k + 1..]) && s[k] !in s[..k] + s[k + 1..] &&
            NoRepeats(t) && |t| == |s| && t[0] == s[k] && Data(t) == Promoted(Data(s), k) && forall n | n in t :: n in s
  {
  }

  lemma FrontDiffers(node: Entry, s: seq<Entry>)
    requires NoRepeats(s) && node !in s
    ensures NoRepeats([node] + s) && Data([node] + s) == [node.data] + Data(s)
  {
  }

  lemma DataShortened(s: seq<Entry>, t: seq<Entry>)
    requires t == if |s| < MAX_HIST_LEN then s else s[..MAX_HIST_LEN - 1]
    ensures Data(t) == Shortened(Data(s), MAX_HIST_LEN - 1)
  {
  }

  class InputHistory {
    var history: Entry?
    var histlen: nat
    ghost var nodes: seq<Entry>
    // Every string that was entered, in order.
    ghost var inputs: seq<string>

    ghost predicate Valid()
      reads this, nodes
    {
      InOrder() && |nodes| == (if histlen < MAX_HIST_LEN then histlen else MAX_HIST_LEN) &&
      Data(nodes) == Shortened(Latest(inputs), MAX_HIST_LEN)
    }

    ghost predicate InOrder()
      reads this, nodes
    {
      NoRepeats(nodes) && Linked(nodes) && history == (if nodes == [] then null else nodes[0])
    }

    constructor ()
      ensures Valid() && inputs == [] && histlen == 0
    {
      history, histlen := null, 0;
      nodes, inputs := [], [];
    }

    method Find(str: string) returns (node: Entry?, ghost k: nat)
      requires InOrder()
      ensures node == null ==> str !in Data(nodes)
      ensures node != null ==> k < |nodes| && nodes[k] == node && node.data == str
    {
      node, k := history, 0;
      while node != null
        invariant k <= |nodes| && node == (if k < |nodes| then nodes[k] else null)
        invariant forall i | 0 <= i < k :: nodes[i].data != str
        decreases |nodes| - k
      {
        if node.data == str {
          return;
        }
        Neighbours(nodes, k);
        node, k := node.next, k + 1;
      }
    }

    // The tenth entry.
    method Tenth() returns (node: Entry)
      requires InOrder() && |nodes| == MAX_HIST_LEN
      ensures node == nodes[MAX_HIST_LEN - 1]
    {
      node := history;
      var i := 1;
      while i < MAX_HIST_LEN
        invariant 1 <= i <= MAX_HIST_LEN && node == nodes[i - 1]
      {
        Neighbours(nodes, i - 1);
        node := node.next;
        i := i + 1;
      }
    }

    // Cuts the links before an entry.
    static method Sever(node: Entry, ghost s: seq<Entry>, ghost k: nat)
      requires NoRepeats(s) && Linked(s) && 0 < k < |s| && s[k] == node
      modifies s
      ensures Linked(s[..k])
    {
      Neighbours(s, k);
      node.prev.next := null;
      node.prev := null;
      ghost var rest := s[..k];
      forall i | 0 <= i < |rest|
        ensures rest[i].prev == Before(rest, i) && rest[i].next == After(rest, i)
      {
        assert rest[i] == s[i] != s[k] && (i != k - 1 ==> s[i] != s[k - 1]);
        assert Before(rest, i) == Before(s, i) && (i != k - 1 ==> After(rest, i) == After(s, i));
      }
    }

    // Cuts the list off before its tenth entry.
    method CutOff()
      requires InOrder() && |nodes| == MAX_HIST_LEN
      modifies this`nodes, nodes
      ensures InOrder() && nodes == old(nodes)[..MAX_HIST_LEN - 1]
    {
      hide Linked;
      var node := Tenth();
      Sever(node, nodes, MAX_HIST_LEN - 1);
      nodes := nodes[..MAX_HIST_LEN - 1];
    }

    // Makes the entry the one before the first.
    static method LinkFront(node: Entry, first: Entry?, ghost s: seq<Entry>)
      requires NoRepeats(s) && Linked(s) && node !in s && node.prev == null
      requires first == if s == [] then null else s[0]
      modifies s, node
      ensures Linked([node] + s)
    {
      node.next := first;
      if first != null {
        first.prev := node;
      }
      ghost var after := [node] + s;
      forall i | 0 <= i < |after|
        ensures after[i].prev == Before(after, i) && after[i].next == After(after, i)
      {
        if i > 0 {
          assert after[i] == s[i - 1] && (i > 1 ==> s[i - 1] != s[0]);
          assert After(after, i) == After(s, i - 1);
        }
      }
    }

    // g_list_prepend
    method Prepend(str: string)
      requires InOrder()
      modifies this`nodes, this`history, nodes
      ensures InOrder() && |nodes| == |old(nodes)| + 1 && nodes[1..] == old(nodes) && fresh(nodes[0])
      ensures Data(nodes) == [str] + Data(old(nodes))
    {
      hide Linked, NoRepeats, Data;
      var node := new Entry(str);
      assert node !in nodes;
      FrontDiffers(node, nodes);
      LinkFront(node, history, nodes);
      history := node;
      nodes := [node] + nodes;
    }

    // Takes an entry out of the middle or the end, and puts it first.
    method ToFront(node: Entry, ghost k: nat)
      requires InOrder() && 0 < k < |nodes| && nodes[k] == node
      modifies this`nodes, this`history, nodes
      ensures InOrder() && nodes == Promoted(old(nodes), k)
    {
      hide Promoted, Linked;
      Neighbours(nodes, k);
      PromotedAt(nodes, k);
      Unlink(node, nodes, k);
      ghost var rest := nodes[..k] + nodes[k + 1..];
      LinkFront(node, history, rest);
      history := node;
      nodes := Promoted(nodes, k);
    }

    static method Unlink(node: Entry, ghost s: seq<Entry>, ghost k: nat)
      requires NoRepeats(s) && Linked(s) && 0 < k < |s| && s[k] == node
      modifies s
      ensures Linked(s[..k] + s[k + 1..]) && node.prev == null
    {
      ghost var rest := s[..k] + s[k + 1..];
      Neighbours(s, k);
      assert Before(s, k) == s[k - 1] && After(s, k) == if k + 1 < |s| then s[k + 1] else null;
      node.prev.next := node.next;
      if node.next != null {
        node.next.prev := node.prev;
      }
      node.prev := null;
      hide Before, After;
      forall i | 0 <= i < |rest|
        ensures rest[i].prev == Before(rest, i) && rest[i].next == After(rest, i)
      {
        Remaining(s, k, i);
        AwayFrom(s, k, if i < k then i else i + 1);
      }
    }

    // A string that is not there: the history is cut off if it is full.
    method PutInFront(str: string)
      requires InOrder() && |nodes| == (if histlen < MAX_HIST_LEN then histlen else MAX_HIST_LEN)
      modifies this`nodes, this`history, this`histlen, nodes
      ensures InOrder() && |nodes| == (if histlen < MAX_HIST_LEN then histlen else MAX_HIST_LEN)
      ensures histlen == old(histlen) + 1
      ensures Data(nodes) == [str] + Shortened(old(Data(nodes)), MAX_HIST_LEN - 1)
      ensures forall i | 0 <= i < |nodes| :: nodes[i] in old(nodes) || fresh(nodes[i])
    {
      hide Linked, NoRepeats, Data;
      ghost var was := nodes;
      if histlen >= MAX_HIST_LEN {
        CutOff();
      }
      ghost var rest := nodes;
      DataShortened(was, rest);
      Prepend(str);
      histlen := histlen + 1;
      forall i | 0 <= i < |nodes|
        ensures nodes[i] in was || fresh(nodes[i])
      {
        if i > 0 {
          assert nodes[i] == nodes[1..][i - 1] == rest[i - 1];
        }
      }
    }

    /** add_history; what is cut off is given back. */
    method AddHistory(str: string)
      requires Valid()
      modifies this, nodes
      ensures Valid() && inputs == old(inputs) + [str]
      // What is kept are the ten strings used last, or all of them.
      ensures |nodes| <= 10 && Data(nodes) <= Latest(inputs) && (|nodes| < 10 ==> Data(nodes) == Latest(inputs))
      ensures histlen == old(histlen) + (if str == "" || str in old(Data(nodes)) then 0 else 1)
      ensures forall i | 0 <= i < |nodes| :: nodes[i] in old(nodes) || fresh(nodes[i])
    {
      hide Latest, Without, Promoted, Linked, NoRepeats;
      ghost var items := Data(nodes);
      ItemsDiffer(items, inputs);
      UsedIsLatest(inputs, str);
      inputs := inputs + [str];
      if str == "" {
        return;
      }
      var node;
      ghost var k;
      node, k := Find(str);
      if node == null {
        PutInFront(str);
      } else {
        assert items[k] == str;
        UsedAgain(items, k);
        Neighbours(nodes, k);
        if node.prev != null {
          ghost var was := nodes;
          ToFront(node, k);
          PromotedAt(was, k);
        }
      }
    }
  }

  lemma ItemsDiffer(items: seq<string>, inputs: seq<string>)
    requires items == Shortened(Latest(inputs), MAX_HIST_LEN)
    ensures NoRepeats(items)
  {
    LatestIsByUse(inputs);
  }

  // Who is next to whom after an entry was taken out.
  lemma Remaining(s: seq<Entry>, k: nat, i: nat)
    requires 0 < k < |s| && i < |s| - 1
    ensures var rest, j := s[..k] + s[k + 1..], if i < k then i else i + 1;
            rest[i] == s[j] && Before(rest, i) == Before(s, if j == k + 1 then k else j) &&
            After(rest, i) == After(s, if j == k - 1 then k else j)
  {
  }

  // An entry away from the one that moves to the front is none of those whose links change.
  lemma AwayFrom(s: seq<Entry>, k: nat, i: nat)
    requires NoRepeats(s) && 0 < k < |s| && i < |s|
    ensures i != k ==> s[i] != s[k]
    ensures i != k - 1 ==> s[i] != s[k - 1]
    ensures i != 0 ==> s[i] != s[0]
    ensures k + 1 < |s| && i != k + 1 ==> s[i] != s[k + 1]
  {
  }
}
