/**
 * The bookmark tree in memory: nodes with links to the first child, the next
 * sibling and the parent, and the traversals that use nothing but these links.
 */
module BookmarkTree {
  import opened Basics

  /** A bookmark or folder. */
  class Node {
    const path: string
    const isfolder: bool
    var children: Node?
    // The parent.
    var prev: Node?
    var next: Node?

    constructor (path: string, isfolder: bool)
      ensures this.path == path && this.isfolder == isfolder
      ensures children == null && prev == null && next == null
    {
      this.path, this.isfolder := path, isfolder;
      children, prev, next := null, null, null;
    }
  }

  /** What was given back so far, in order: memory given back must not be read, or given back again. */
  datatype Memory = Memory(freed: seq<Node>) {
    function Children(node: Node): Node?
      requires node !in freed
      reads node
    {
      node.children
    }

    function Prev(node: Node): Node?
      requires node !in freed
      reads node
    {
      node.prev
    }

    function Next(node: Node): Node?
      requires node !in freed
      reads node
    {
      node.next
    }

    /** gftp_free_bookmark with the node itself. */
    function Free(node: Node): Memory
      requires node !in freed
    {
      Memory(freed + [node])
    }
  }

  /** Siblings in order, each with its own children: what the links spell out. */
  datatype Forest<T> = Nil | Cons(head: T, kids: Forest<T>, rest: Forest<T>)

  function Preorder<T>(f: Forest<T>): seq<T> {
    match f
    case Nil => []
    case Cons(h, k, r) => [h] + Preorder(k) + Preorder(r)
  }

  function Postorder<T>(f: Forest<T>): seq<T> {
    match f
    case Nil => []
    case Cons(h, k, r) => Postorder(k) + [h] + Postorder(r)
  }

  ghost function Nodes(f: Forest<Node>): set<Node> {
    match f
    case Nil => {}
    case Cons(h, k, r) => {h} + Nodes(k) + Nodes(r)
  }

  /** No node occurs twice. */
  ghost predicate Distinct(f: Forest<Node>) {
    match f
    case Nil => true
    case Cons(h, k, r) =>
      h !in Nodes(k) && h !in Nodes(r) && Nodes(k) !! Nodes(r) && Distinct(k) && Distinct(r)
  }

  function First(f: Forest<Node>): Node? {
    if f.Nil? then null else f.head
  }

  /** The links of the nodes spell out the forest below `parent`. */
  ghost predicate Linked(f: Forest<Node>, parent: Node?)
    reads Nodes(f)
  {
    match f
    case Nil => true
    case Cons(h, k, r) =>
      h.prev == parent && h.children == First(k) && h.next == First(r) && Linked(k, h) && Linked(r, parent)
  }

  // ----- where a traversal stands -----

  /** The way back up: each ancestor with the siblings to its right. */
  datatype Trail = Top | Up(parent: Node, right: Forest<Node>, above: Trail)

  function ParentOf(t: Trail): Node? {
    if t.Top? then null else t.parent
  }

  ghost function TrailNodes(t: Trail): set<Node> {
    match t
    case Top => {}
    case Up(p, right, above) => {p} + Nodes(right) + TrailNodes(above)
  }

  ghost predicate LinkedTrail(t: Trail)
    reads TrailNodes(t)
  {
    match t
    case Top => true
    case Up(p, right, above) =>
      p.prev == ParentOf(above) && p.next == First(right) && Linked(right, ParentOf(above)) && LinkedTrail(above)
  }

  /** The traversal is at the first node of `f`, and `trail` is its way back. */
  ghost predicate Stands(e: Node?, f: Forest<Node>, trail: Trail)
    reads Nodes(f), TrailNodes(trail)
  {
    e == First(f) && Linked(f, ParentOf(trail)) && LinkedTrail(trail)
  }

  // What the links of the node lead to.
  lemma AtNode(e: Node, f: Forest<Node>, trail: Trail)
    requires Stands(e, f, trail)
    ensures f.Cons? && e == f.head && e.children == First(f.kids) && e.next == First(f.rest)
    ensures e.prev == ParentOf(trail) && Linked(f.rest, ParentOf(trail)) && LinkedTrail(trail)
    ensures Stands(e.children, f.kids, Up(e, f.rest, trail))
    ensures Nodes(f.kids) + TrailNodes(Up(e, f.rest, trail)) <= Nodes(f) + TrailNodes(trail)
    ensures Nodes(f.rest) <= Nodes(f)
  {
  }

  // What preorder still has to visit further up.
  function Ahead(t: Trail): seq<Node> {
    match t
    case Top => []
    case Up(_, right, above) => Preorder(right) + Ahead(above)
  }

  // What postorder still has to visit further up.
  function Pending(t: Trail): seq<Node> {
    match t
    case Top => []
    case Up(p, right, above) => [p] + Postorder(right) + Pending(above)
  }

  // The nearest siblings to the right, of the node or of one of its ancestors.
  function Ascend(right: Forest<Node>, trail: Trail): (Forest<Node>, Trail)
    decreases trail
  {
    if right.Cons? || trail.Top? then (right, trail) else Ascend(trail.right, trail.above)
  }

  lemma {:induction false} AscendPreorder(right: Forest<Node>, trail: Trail)
    ensures var (right', trail') := Ascend(right, trail);
            Preorder(right') + Ahead(trail') == Preorder(right) + Ahead(trail) && (right' == Nil ==> trail' == Top)
    decreases trail
  {
    if right.Nil? && trail.Up? {
      AscendPreorder(trail.right, trail.above);
      assert [] + Ahead(trail) == Ahead(trail);
    }
  }

  /** Goes up from a last child until there is a next sibling, or no parent. */
  method Climb(entry: Node, ghost right: Forest<Node>, ghost trail: Trail)
    returns (e: Node, ghost right': Forest<Node>, ghost trail': Trail)
    requires entry.prev == ParentOf(trail) && entry.next == First(right)
    requires Linked(right, ParentOf(trail)) && LinkedTrail(trail)
    ensures e.next != null || e.prev == null
    ensures (right', trail') == Ascend(right, trail)
    ensures e.next == First(right') && Linked(right', ParentOf(trail')) && LinkedTrail(trail')
  {
    e, right', trail' := entry, right, trail;
    while e.next == null && e.prev != null
      invariant e.prev == ParentOf(trail') && e.next == First(right')
      invariant Linked(right', ParentOf(trail')) && LinkedTrail(trail')
      invariant Ascend(right', trail') == Ascend(right, trail)
      decreases trail'
    {
      assert right' == Nil && trail'.Up?;
      e := e.prev;
      right', trail' := trail'.right, trail'.above;
    }
  }

  // ----- the path index -----

  /** The nodes entered one after the other under their paths; a later one replaces an earlier one. */
  function Index(nodes: seq<Node>): map<string, Node> {
    if nodes == [] then map[] else Index(nodes[..|nodes| - 1])[nodes[|nodes| - 1].path := nodes[|nodes| - 1]]
  }

  lemma IndexAppends(nodes: seq<Node>, n: Node)
    ensures Index(nodes + [n]) == Index(nodes)[n.path := n]
  {
    assert (nodes + [n])[..|nodes|] == nodes;
  }

  /**
   * build_bookmarks_hash_table: walks the links without a stack, and visits the
   * nodes in the order recursion would, each once.
   */
  method BuildHashTable(entry: Node, ghost tree: Forest<Node>) returns (htable: map<string, Node>, ghost visited: seq<Node>)
    requires tree.Cons? && tree.head == entry && tree.rest == Nil && Linked(tree, null)
    ensures visited == Preorder(tree)
    ensures htable == Index(Preorder(tree))
  {
    htable, visited := map[], [];
    var tempentry: Node? := entry;
    ghost var f, trail := tree, Top;
    assert Preorder(tree) + Ahead(Top) == Preorder(tree);
    while tempentry != null
      invariant tempentry == First(f) && Linked(f, ParentOf(trail)) && LinkedTrail(trail)
      invariant visited + (Preorder(f) + Ahead(trail)) == Preorder(tree)
      invariant htable == Index(visited)
      invariant f == Nil ==> trail == Top
      decreases |Preorder(tree)| - |visited|
    {
      htable := htable[tempentry.path := tempentry];
      IndexAppends(visited, tempentry);
      VisitHead(f, trail, visited);
      visited := visited + [tempentry];
      if tempentry.children != null {
        trail := Up(f.head, f.rest, trail);
        f := f.kids;
        tempentry := tempentry.children;
        continue;
      }
      var e;
      AscendPreorder(f.rest, trail);
      e, f, trail := Climb(tempentry, f.rest, trail);
      tempentry := e.next;
    }
  }

  // Visiting the first of the pending nodes leaves its children, and what comes after them.
  lemma VisitHead(f: Forest<Node>, trail: Trail, visited: seq<Node>)
    requires f.Cons?
    ensures visited + (Preorder(f) + Ahead(trail))
         == (visited + [f.head]) + (Preorder(f.kids) + Ahead(Up(f.head, f.rest, trail)))
    ensures f.kids == Nil ==>
              visited + (Preorder(f) + Ahead(trail)) == (visited + [f.head]) + (Preorder(f.rest) + Ahead(trail))
  {
    var below := Up(f.head, f.rest, trail);
    assert Preorder(f) + Ahead(trail) == [f.head] + (Preorder(f.kids) + (Preorder(f.rest) + Ahead(trail)));
    assert Ahead(below) == Preorder(f.rest) + Ahead(trail);
  }

  // ----- giving the tree back -----

  lemma {:induction false} PostorderHasNodes(f: Forest<Node>)
    ensures forall i | 0 <= i < |Postorder(f)| :: Postorder(f)[i] in Nodes(f)
    ensures (set n | n in Postorder(f)) == Nodes(f)
  {
    match f
    case Nil =>
    case Cons(h, k, r) =>
      PostorderHasNodes(k);
      PostorderHasNodes(r);
      assert Postorder(f) == Postorder(k) + [h] + Postorder(r);
      assert (set n | n in Postorder(f)) == (set n | n in Postorder(k)) + {h} + (set n | n in Postorder(r));
  }

  lemma {:induction false} PostorderNoRepeats(f: Forest<Node>)
    requires Distinct(f)
    ensures NoRepeats(Postorder(f))
  {
    match f
    case Nil =>
    case Cons(h, k, r) =>
      PostorderNoRepeats(k);
      PostorderNoRepeats(r);
      PostorderHasNodes(k);
      PostorderHasNodes(r);
      NoRepeatsJoin(Postorder(k), [h]);
      NoRepeatsJoin(Postorder(k) + [h], Postorder(r));
  }

  /** `c` is somewhere below `p`. */
  ghost predicate Below(f: Forest<Node>, p: Node, c: Node) {
    match f
    case Nil => false
    case Cons(h, k, r) => (h == p && c in Nodes(k)) || Below(k, p, c) || Below(r, p, c)
  }

  /** In postorder, what is below a node comes before it. */
  lemma {:induction false} ChildrenBeforeParents(f: Forest<Node>, p: Node, c: Node) returns (i: nat, j: nat)
    requires Below(f, p, c)
    ensures i < j < |Postorder(f)| && Postorder(f)[i] == c && Postorder(f)[j] == p
  {
    var Cons(h, k, r) := f;
    var before := Postorder(k) + [h];
    assert Postorder(f) == before + Postorder(r);
    if h == p && c in Nodes(k) {
      PostorderHasNodes(k);
      assert c in Postorder(k);
      i :| 0 <= i < |Postorder(k)| && Postorder(k)[i] == c;
      j := |Postorder(k)|;
    } else if Below(k, p, c) {
      i, j := ChildrenBeforeParents(k, p, c);
    } else {
      i, j := ChildrenBeforeParents(r, p, c);
      assert Postorder(f)[|before| + i] == c && Postorder(f)[|before| + j] == p;
      i, j := |before| + i, |before| + j;
    }
  }

  /** After `was`, the first `n` nodes of `order` were given back, and nothing else. */
  ghost predicate FreedUpTo(freed: seq<Node>, was: seq<Node>, order: seq<Node>, n: nat) {
    n <= |order| && freed == was + order[..n]
  }

  /** None of `order` was given back before. */
  ghost predicate Unfreed(was: seq<Node>, order: seq<Node>) {
    forall i, j | 0 <= i < |was| && 0 <= j < |order| :: was[i] != order[j]
  }

  lemma FreedOneMore(freed: seq<Node>, was: seq<Node>, order: seq<Node>, n: nat)
    requires NoRepeats(order) && Unfreed(was, order) && n < |order| && FreedUpTo(freed, was, order, n)
    ensures order[n] !in freed && FreedUpTo(freed + [order[n]], was, order, n + 1)
  {
    assert order[..n + 1] == order[..n] + [order[n]];
  }

  // What is pending was not given back yet.
  lemma NotYetFreed(freed: seq<Node>, was: seq<Node>, order: seq<Node>, n: nat, node: Node)
    requires NoRepeats(order) && Unfreed(was, order) && FreedUpTo(freed, was, order, n) && node in order[n..]
    ensures node !in freed
  {
    var i :| n <= i < |order| && order[i] == node;
  }

  lemma NoneFreed(was: seq<Node>, tree: Forest<Node>)
    requires forall i | 0 <= i < |was| :: was[i] !in Nodes(tree)
    ensures Unfreed(was, Postorder(tree))
  {
    PostorderHasNodes(tree);
  }

  lemma NothingLeft(freed: seq<Node>, was: seq<Node>, order: seq<Node>, done: nat)
    requires done <= |order| && order[done..] == Postorder(Nil) + Pending(Top) && FreedUpTo(freed, was, order, done)
    ensures freed == was + order
  {
    assert order[..done] == order;
  }

  // Postorder leaves the first of the pending nodes for after its children.
  lemma LeaveHead(order: seq<Node>, done: nat, f: Forest<Node>, trail: Trail)
    requires f.Cons? && done <= |order| && order[done..] == Postorder(f) + Pending(trail)
    ensures order[done..] == Postorder(f.kids) + Pending(Up(f.head, f.rest, trail))
    ensures f.kids == Nil ==> order[done..] == Pending(Up(f.head, f.rest, trail))
    ensures f.head in order[done..]
  {
    assert Pending(Up(f.head, f.rest, trail)) == [f.head] + Postorder(f.rest) + Pending(trail);
    assert order[done..][|Postorder(f.kids)|] == f.head;
  }

  lemma OneFreed(order: seq<Node>, done: nat, e: Node, f: Forest<Node>, trail: Trail)
    requires done <= |order| && order[done..] == Pending(Up(e, f, trail))
    ensures done < |order| && order[done] == e && e in order
    ensures order[done + 1..] == Postorder(f) + Pending(trail)
  {
    assert order[done..][0] == e;
    assert order[done + 1..] == order[done..][1..];
  }

  // Frees an entry without children left, and each parent whose last child that was.
  method FreeUpwards(entry: Node, given: Memory, ghost right: Forest<Node>, ghost above: Trail,
                     ghost was: seq<Node>, ghost order: seq<Node>, ghost start: nat)
    returns (tempentry: Node?, memory: Memory, ghost f: Forest<Node>, ghost trail: Trail, ghost done: nat)
    requires entry.prev == ParentOf(above) && entry.next == First(right)
    requires Linked(right, ParentOf(above)) && LinkedTrail(above)
    requires NoRepeats(order) && Unfreed(was, order) && FreedUpTo(given.freed, was, order, start)
    requires order[start..] == Pending(Up(entry, right, above))
    ensures Stands(tempentry, f, trail) && (tempentry == null ==> f == Nil)
    ensures start < done <= |order| && order[done..] == Postorder(f) + Pending(trail)
    ensures FreedUpTo(memory.freed, was, order, done) && given.freed < memory.freed
    ensures f == Nil ==> trail == Top
  {
    var e: Node := entry;
    memory, f, trail, done := given, right, above, start;
    while true
      invariant e.prev == ParentOf(trail) && e.next == First(f)
      invariant Linked(f, ParentOf(trail)) && LinkedTrail(trail)
      invariant start <= done <= |order| && FreedUpTo(memory.freed, was, order, done)
      invariant order[done..] == Pending(Up(e, f, trail))
      decreases trail
    {
      OneFreed(order, done, e, f, trail);
      FreedOneMore(memory.freed, was, order, done);
      var next := memory.Next(e);
      if next != null {
        break;
      }
      var prev := memory.Prev(e);
      if prev == null {
        break;
      }
      var delentry := e;
      e := prev;
      assert [] + Pending(trail) == Pending(trail);
      f, trail := trail.right, trail.above;
      memory := memory.Free(delentry);
      done := done + 1;
    }
    OneFreed(order, done, e, f, trail);
    FreedOneMore(memory.freed, was, order, done);
    var delentry := e;
    tempentry := memory.Next(e);
    memory := memory.Free(delentry);
    done := done + 1;
  }

  /**
   * gftp_bookmarks_destroy: gives every node back exactly once, children before
   * their parents, and never follows a link of a node already given back.
   */
  method Destroy(bookmarks: Node?, given: Memory, ghost tree: Forest<Node>)
    returns (memory: Memory)
    requires if bookmarks == null then tree == Nil else tree.Cons? && tree.head == bookmarks && tree.rest == Nil
    requires Linked(tree, null) && Distinct(tree) && forall i | 0 <= i < |given.freed| :: given.freed[i] !in Nodes(tree)
    ensures memory.freed == given.freed + Postorder(tree) && NoRepeats(Postorder(tree))
  {
    memory := given;
    ghost var was, order := given.freed, Postorder(tree);
    PostorderNoRepeats(tree);
    NoneFreed(was, tree);
    if bookmarks == null {
      return;
    }
    ghost var done, f, trail := 0, tree, Top;
    var tempentry: Node? := bookmarks;
    assert order[0..] == order == Postorder(f) + Pending(trail);
    assert FreedUpTo(memory.freed, was, order, 0);
    hide Postorder, Pending, Linked, LinkedTrail, Stands, NoRepeats, Unfreed, FreedUpTo, Nodes, TrailNodes, Distinct;
    while tempentry != null
      invariant Stands(tempentry, f, trail) && (tempentry == null ==> f == Nil)
      invariant done <= |order| && order[done..] == Postorder(f) + Pending(trail)
      invariant FreedUpTo(memory.freed, was, order, done)
      invariant f == Nil ==> trail == Top
      decreases |order| - done, f
    {
      AtNode(tempentry, f, trail);
      LeaveHead(order, done, f, trail);
      NotYetFreed(memory.freed, was, order, done, tempentry);
      var children := memory.Children(tempentry);
      if children != null {
        trail := Up(f.head, f.rest, trail);
        f := f.kids;
        tempentry := children;
      } else {
        tempentry, memory, f, trail, done := FreeUpwards(tempentry, memory, f.rest, trail, was, order, done);
      }
    }
    NothingLeft(memory.freed, was, order, done);
  }
}
