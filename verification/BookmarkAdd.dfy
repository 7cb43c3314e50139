/**
 * Adding bookmarks: folders are made as a path needs them, and the path index
 * is kept in step with the tree.
 */
module BookmarkAdd {
  import opened Basics
  import opened BookmarkTree

  // ----- paths -----

  /** The parts of a path before each slash among its first `n` characters. */
  function SlashPrefixes(path: string, n: nat): seq<string>
    requires n <= |path|
  {
    if n == 0 then []
    else SlashPrefixes(path, n - 1) + (if path[n - 1] == '/' then [path[..n - 1]] else [])
  }

  /** The root, the folders on the way, and the entry itself. */
  function RouteOf(path: string): (route: seq<string>)
    ensures route != []
  {
    if path == "" then [""] else [""] + SlashPrefixes(path, |path|) + [path]
  }

  lemma {:induction false} PrefixesOfPrefix(path: string, m: nat, n: nat)
    requires n <= m <= |path|
    ensures SlashPrefixes(path[..m], n) == SlashPrefixes(path, n)
  {
    if n > 0 {
      PrefixesOfPrefix(path, m, n - 1);
      assert path[..m][..n - 1] == path[..n - 1];
    }
  }

  // Between two slashes nothing is added.
  lemma {:induction false} NoSlashNoPrefix(path: string, from: nat, to: nat)
    requires from <= to <= |path| && forall k | from <= k < to :: path[k] != '/'
    ensures SlashPrefixes(path, to) == SlashPrefixes(path, from)
  {
    if from < to {
      NoSlashNoPrefix(path, from, to - 1);
    }
  }

  // The route of the folder before a slash is the route so far, and that folder.
  lemma RouteOfFolder(path: string, pos: nat)
    requires 0 < pos <= |path|
    ensures RouteOf(path[..pos]) == [""] + SlashPrefixes(path, pos) + [path[..pos]]
  {
    PrefixesOfPrefix(path, pos, pos);
  }

  // ----- what adding means for the tree -----

  datatype Label = Label(path: string, isfolder: bool)

  function Shape(f: Forest<Node>): Forest<Label> {
    match f
    case Nil => Nil
    case Cons(h, k, r) => Cons(Label(h.path, h.isfolder), Shape(k), Shape(r))
  }

  /**
   * The forest with the entry at the end of the route in it: an entry that is
   * there already stays, missing folders are made, and what is new comes last
   * among its siblings.
   */
  function Insert(f: Forest<Label>, route: seq<string>, isfolder: bool): Forest<Label>
    requires route != []
    decreases |route|, f
  {
    match f
    case Nil =>
      if |route| == 1 then Cons(Label(route[0], isfolder), Nil, Nil)
      else Cons(Label(route[0], true), Insert(Nil, route[1..], isfolder), Nil)
    case Cons(h, k, r) =>
      if h.path != route[0] then Cons(h, k, Insert(r, route, isfolder))
      else if |route| == 1 then f
      else Cons(h, Insert(k, route[1..], isfolder), r)
  }

  // Making the folder first changes nothing.
  lemma {:induction false} InsertViaFolder(f: Forest<Label>, folder: seq<string>, path: string, isfolder: bool)
    requires folder != []
    ensures Insert(Insert(f, folder, true), folder + [path], isfolder) == Insert(f, folder + [path], isfolder)
    decreases |folder|, f
  {
    var route := folder + [path];
    assert route[0] == folder[0] && route[1..] == folder[1..] + [path];
    match f
    case Nil =>
      if |folder| > 1 {
        InsertViaFolder(Nil, folder[1..], path, isfolder);
      }
    case Cons(h, k, r) =>
      if h.path != folder[0] {
        InsertViaFolder(r, folder, path, isfolder);
      } else if |folder| > 1 {
        InsertViaFolder(k, folder[1..], path, isfolder);
      }
  }

  // ----- where a route leads -----

  /** Following the paths of the route from sibling to sibling and down leads to the node. */
  ghost predicate Leads(f: Forest<Node>, route: seq<string>, node: Node)
    requires route != []
    decreases |route|, f
  {
    f.Cons? &&
    if f.head.path != route[0] then Leads(f.rest, route, node)
    else if |route| == 1 then f.head == node
    else Leads(f.kids, route[1..], node)
  }

  lemma {:induction false} LeadsInside(f: Forest<Node>, route: seq<string>, node: Node)
    requires route != [] && Leads(f, route, node)
    ensures node in Nodes(f) && (exists n :: n in Nodes(f) && n.path == route[0])
    decreases |route|, f
  {
    if f.head.path != route[0] {
      LeadsInside(f.rest, route, node);
    } else {
      assert f.head in Nodes(f);
      if |route| > 1 {
        LeadsInside(f.kids, route[1..], node);
      }
    }
  }

  lemma {:induction false} InsertPresent(f: Forest<Node>, route: seq<string>, node: Node, isfolder: bool)
    requires route != [] && Leads(f, route, node)
    ensures Insert(Shape(f), route, isfolder) == Shape(f)
    decreases |route|, f
  {
    if f.head.path != route[0] {
      InsertPresent(f.rest, route, node, isfolder);
    } else if |route| > 1 {
      InsertPresent(f.kids, route[1..], node, isfolder);
    }
  }

  /** Every node stands where its path says. */
  ghost predicate Placed(f: Forest<Node>, above: seq<string>) {
    match f
    case Nil => true
    case Cons(h, k, r) =>
      RouteOf(h.path) == above + [h.path] && Placed(k, above + [h.path]) && Placed(r, above)
  }

  ghost predicate UniquePaths(nodes: set<Node>) {
    forall n, m | n in nodes && m in nodes :: n.path == m.path ==> n == m
  }

  lemma {:induction false} RouteLeads(f: Forest<Node>, above: seq<string>, node: Node)
    requires Placed(f, above) && Distinct(f) && UniquePaths(Nodes(f)) && node in Nodes(f)
    ensures |above| < |RouteOf(node.path)| && RouteOf(node.path)[..|above|] == above
    ensures Leads(f, RouteOf(node.path)[|above|..], node)
  {
    var Cons(h, k, r) := f;
    var route := RouteOf(node.path);
    if node == h {
      assert route[|above|..] == [h.path];
    } else if node in Nodes(k) {
      RouteLeads(k, above + [h.path], node);
      assert route[|above|] == h.path && route[|above|..][1..] == route[|above| + 1..];
      assert route[..|above|] == route[..|above| + 1][..|above|];
    } else {
      RouteLeads(r, above, node);
      LeadsInside(r, route[|above|..], node);
    }
  }

  // ----- a new last child -----

  function AppendEnd(f: Forest<Node>, x: Node): Forest<Node> {
    match f
    case Nil => Cons(x, Nil, Nil)
    case Cons(h, k, r) => Cons(h, k, AppendEnd(r, x))
  }

  /** The forest with `x` as the last child of `p`. */
  ghost function Graft(f: Forest<Node>, p: Node, x: Node): Forest<Node> {
    match f
    case Nil => Nil
    case Cons(h, k, r) => Cons(h, if h == p then AppendEnd(k, x) else Graft(k, p, x), Graft(r, p, x))
  }

  lemma {:induction false} GraftElsewhere(f: Forest<Node>, p: Node, x: Node)
    requires p !in Nodes(f)
    ensures Graft(f, p, x) == f
  {
    match f
    case Nil =>
    case Cons(h, k, r) =>
      GraftElsewhere(k, p, x);
      GraftElsewhere(r, p, x);
  }

  lemma {:induction false} AppendNodes(f: Forest<Node>, x: Node)
    requires Distinct(f) && x !in Nodes(f)
    ensures Nodes(AppendEnd(f, x)) == Nodes(f) + {x} && Distinct(AppendEnd(f, x))
  {
    match f
    case Nil =>
    case Cons(h, k, r) =>
      AppendNodes(r, x);
  }

  lemma {:induction false} GraftNodes(f: Forest<Node>, p: Node, x: Node)
    requires Distinct(f) && p in Nodes(f) && x !in Nodes(f)
    ensures Nodes(Graft(f, p, x)) == Nodes(f) + {x} && Distinct(Graft(f, p, x))
  {
    var Cons(h, k, r) := f;
    if h == p {
      AppendNodes(k, x);
      GraftElsewhere(r, p, x);
    } else if p in Nodes(k) {
      GraftNodes(k, p, x);
      GraftElsewhere(r, p, x);
    } else {
      GraftNodes(r, p, x);
      GraftElsewhere(k, p, x);
    }
  }

  lemma {:induction false} AppendIsInsert(f: Forest<Node>, x: Node)
    requires forall n | n in Nodes(f) :: n.path != x.path
    ensures Shape(AppendEnd(f, x)) == Insert(Shape(f), [x.path], x.isfolder)
  {
    match f
    case Nil =>
    case Cons(h, k, r) =>
      AppendIsInsert(r, x);
  }

  lemma {:induction false} GraftIsInsert(f: Forest<Node>, route: seq<string>, p: Node, x: Node)
    requires Distinct(f) && route != [] && Leads(f, route, p)
    requires forall n | n in Nodes(f) :: n.path != x.path
    ensures Shape(Graft(f, p, x)) == Insert(Shape(f), route + [x.path], x.isfolder)
    decreases |route|, f
  {
    var Cons(h, k, r) := f;
    assert (route + [x.path])[0] == route[0] && (route + [x.path])[1..] == route[1..] + [x.path];
    LeadsInside(f, route, p);
    if h.path != route[0] {
      LeadsInside(r, route, p);
      GraftIsInsert(r, route, p, x);
      GraftElsewhere(k, p, x);
    } else if |route| == 1 {
      AppendIsInsert(k, x);
      GraftElsewhere(r, p, x);
    } else {
      LeadsInside(k, route[1..], p);
      GraftIsInsert(k, route[1..], p, x);
      GraftElsewhere(r, p, x);
    }
  }

  lemma {:induction false} AppendPlaced(f: Forest<Node>, above: seq<string>, x: Node)
    requires Placed(f, above) && RouteOf(x.path) == above + [x.path]
    ensures Placed(AppendEnd(f, x), above)
  {
    match f
    case Nil =>
    case Cons(h, k, r) =>
      AppendPlaced(r, above, x);
  }

  lemma {:induction false} GraftPlaced(f: Forest<Node>, above: seq<string>, route: seq<string>, p: Node, x: Node)
    requires Placed(f, above) && Distinct(f) && route != [] && Leads(f, route, p)
    requires RouteOf(x.path) == above + route + [x.path]
    ensures Placed(Graft(f, p, x), above)
    decreases |route|, f
  {
    var Cons(h, k, r) := f;
    LeadsInside(f, route, p);
    if h.path != route[0] {
      LeadsInside(r, route, p);
      GraftPlaced(r, above, route, p, x);
      GraftElsewhere(k, p, x);
    } else if |route| == 1 {
      assert above + route == above + [h.path];
      AppendPlaced(k, above + [h.path], x);
      GraftElsewhere(r, p, x);
    } else {
      assert above + route == (above + [h.path]) + route[1..];
      LeadsInside(k, route[1..], p);
      GraftPlaced(k, above + [h.path], route[1..], p, x);
      GraftElsewhere(r, p, x);
    }
  }

  // ----- the links -----

  /** The children of `p`. */
  ghost function Kids(f: Forest<Node>, p: Node): Forest<Node>
    requires p in Nodes(f)
  {
    var Cons(h, k, r) := f;
    if h == p then k else if p in Nodes(k) then Kids(k, p) else Kids(r, p)
  }

  ghost function LastOf(f: Forest<Node>): Node? {
    if f.Nil? then null else if f.rest.Nil? then f.head else LastOf(f.rest)
  }

  lemma {:induction false} LastInside(f: Forest<Node>)
    requires f.Cons?
    ensures LastOf(f) != null && LastOf(f) in Nodes(f)
  {
    if f.rest.Cons? {
      LastInside(f.rest);
    }
  }

  lemma {:induction false} KidsLinked(f: Forest<Node>, parent: Node?, p: Node)
    requires p in Nodes(f) && Linked(f, parent) && Distinct(f)
    ensures Nodes(Kids(f, p)) <= Nodes(f) && p !in Nodes(Kids(f, p))
    ensures p.children == First(Kids(f, p)) && Linked(Kids(f, p), p)
  {
    var Cons(h, k, r) := f;
    if h == p {
    } else if p in Nodes(k) {
      KidsLinked(k, h, p);
    } else {
      KidsLinked(r, parent, p);
    }
  }

  datatype Links = Links(prev: Node?, children: Node?, next: Node?)

  ghost function LinksOf(nodes: set<Node>): map<Node, Links>
    reads nodes
  {
    map n | n in nodes :: Links(n.prev, n.children, n.next)
  }

  /** The recorded links spell out the forest: Linked, for links recorded earlier. */
  ghost predicate Spelled(links: map<Node, Links>, f: Forest<Node>, parent: Node?) {
    match f
    case Nil => true
    case Cons(h, k, r) =>
      h in links && links[h] == Links(parent, First(k), First(r)) && Spelled(links, k, h) && Spelled(links, r, parent)
  }

  lemma {:induction false} LinkedIsSpelled(nodes: set<Node>, f: Forest<Node>, parent: Node?)
    requires Nodes(f) <= nodes
    ensures Linked(f, parent) <==> Spelled(LinksOf(nodes), f, parent)
  {
    match f
    case Nil =>
    case Cons(h, k, r) =>
      LinkedIsSpelled(nodes, k, h);
      LinkedIsSpelled(nodes, r, parent);
  }

  /** What putting `x` behind `last`, or as the first child of `p`, does to the links. */
  ghost predicate LinkedIn(was: map<Node, Links>, now: map<Node, Links>, p: Node, last: Node?, x: Node) {
    x in now && now[x] == Links(p, null, null) &&
    forall n | n in was ::
      n in now &&
      now[n] == Links(was[n].prev, if n == p && last == null then x else was[n].children,
                      if n == last then x else was[n].next)
  }

  lemma {:induction false} StaySpelled(was: map<Node, Links>, now: map<Node, Links>, f: Forest<Node>, parent: Node?,
                                       p: Node, last: Node?, x: Node)
    requires Spelled(was, f, parent) && LinkedIn(was, now, p, last, x)
    requires p !in Nodes(f) && last !in Nodes(f)
    ensures Spelled(now, f, parent)
  {
    match f
    case Nil =>
    case Cons(h, k, r) =>
      StaySpelled(was, now, k, h, p, last, x);
      StaySpelled(was, now, r, parent, p, last, x);
  }

  lemma {:induction false} AppendSpelled(was: map<Node, Links>, now: map<Node, Links>, f: Forest<Node>,
                                         p: Node, last: Node?, x: Node)
    requires Spelled(was, f, p) && LinkedIn(was, now, p, last, x)
    requires last == LastOf(f) && Distinct(f) && p !in Nodes(f)
    ensures Spelled(now, AppendEnd(f, x), p)
  {
    if f.Cons? {
      var Cons(h, k, r) := f;
      if r.Cons? {
        LastInside(r);
      }
      StaySpelled(was, now, k, h, p, last, x);
      if r.Cons? {
        AppendSpelled(was, now, r, p, last, x);
      }
    }
  }

  lemma {:induction false} GraftSpelled(was: map<Node, Links>, now: map<Node, Links>, f: Forest<Node>, parent: Node?,
                                        p: Node, last: Node?, x: Node)
    requires Spelled(was, f, parent) && LinkedIn(was, now, p, last, x)
    requires Distinct(f) && p in Nodes(f) && last == LastOf(Kids(f, p))
    ensures Spelled(now, Graft(f, p, x), parent)
  {
    var Cons(h, k, r) := f;
    LastOfKids(f, p);
    if h == p {
      AppendSpelled(was, now, k, p, last, x);
      GraftElsewhere(r, p, x);
      StaySpelled(was, now, r, parent, p, last, x);
    } else if p in Nodes(k) {
      LastOfKids(k, p);
      GraftSpelled(was, now, k, h, p, last, x);
      GraftElsewhere(r, p, x);
      StaySpelled(was, now, r, parent, p, last, x);
    } else {
      LastOfKids(r, p);
      GraftSpelled(was, now, r, parent, p, last, x);
      GraftElsewhere(k, p, x);
      StaySpelled(was, now, k, h, p, last, x);
    }
  }

  lemma {:induction false} LastOfKids(f: Forest<Node>, p: Node)
    requires p in Nodes(f) && Distinct(f)
    ensures Nodes(Kids(f, p)) <= Nodes(f) && p !in Nodes(Kids(f, p))
    ensures Kids(f, p).Cons? ==> LastOf(Kids(f, p)) != null && LastOf(Kids(f, p)) in Nodes(Kids(f, p))
    ensures f.head != p ==> f.head !in Nodes(Kids(f, p))
  {
    var Cons(h, k, r) := f;
    if h == p {
      if k.Cons? {
        LastInside(k);
      }
    } else if p in Nodes(k) {
      LastOfKids(k, p);
    } else {
      LastOfKids(r, p);
    }
  }

  // ----- the bookmarks -----

  /** The index holds exactly the nodes below the root, each under its path. */
  ghost predicate Indexed(htable: map<string, Node>, nodes: set<Node>) {
    (forall path | path in htable :: htable[path] in nodes && htable[path].path == path) &&
    forall n | n in nodes :: n.path in htable && htable[n.path] == n
  }

  lemma {:induction false} BelowTheRoot(f: Forest<Node>, above: seq<string>, node: Node)
    requires Placed(f, above) && node in Nodes(f)
    ensures |RouteOf(node.path)| > |above|
  {
    var Cons(h, k, r) := f;
    if node in Nodes(k) {
      BelowTheRoot(k, above + [h.path], node);
    } else if node in Nodes(r) {
      BelowTheRoot(r, above, node);
    }
  }

  lemma PathsAreUnique(tree: Forest<Node>, htable: map<string, Node>)
    requires tree.Cons? && tree.rest.Nil? && tree.head.path == ""
    requires Placed(tree, []) && Indexed(htable, Nodes(tree.kids))
    ensures UniquePaths(Nodes(tree)) && forall n | n in Nodes(tree.kids) :: n.path != ""
  {
    forall n | n in Nodes(tree.kids)
      ensures n.path != ""
    {
      BelowTheRoot(tree.kids, [""], n);
    }
  }

  // What linking an entry in needs of the tree, and what it makes of it.
  lemma Attachable(htable: map<string, Node>, tree: Forest<Node>, root: Node, p: Node, last: Node?,
                   route: seq<string>, x: Node)
    requires tree.Cons? && tree.head == root && tree.rest.Nil? && x !in Nodes(tree)
    requires Linked(tree, null) && Distinct(tree) && Placed(tree, []) && Indexed(htable, Nodes(tree.kids))
    requires route != [] && Leads(tree, route, p) && p in Nodes(tree) && last == LastOf(Kids(tree, p))
    requires RouteOf(x.path) == route + [x.path] && x.path !in htable
    ensures Spelled(LinksOf(Nodes(tree)), tree, null)
    ensures if p.children == null then last == null else last != null && last in Nodes(tree)
    ensures var grown := Graft(tree, p, x);
            grown.Cons? && grown.head == root && grown.rest.Nil? &&
            Nodes(grown) == Nodes(tree) + {x} && Distinct(grown) && Placed(grown, []) &&
            Indexed(htable[x.path := x], Nodes(grown.kids))
  {
    hide Leads, RouteOf, LinksOf, Spelled;
    LinkedIsSpelled(Nodes(tree), tree, null);
    LastOfKids(tree, p);
    KidsLinked(tree, null, p);
    GraftNodes(tree, p, x);
    assert [] + route == route;
    GraftPlaced(tree, [], route, p, x);
    var grown := Graft(tree, p, x);
    assert Nodes(grown.kids) == Nodes(tree.kids) + {x} by {
      if tree.head == p {
        AppendNodes(tree.kids, x);
      } else {
        GraftNodes(tree.kids, p, x);
      }
    }
  }

  lemma Attached(was: map<Node, Links>, tree: Forest<Node>, p: Node, last: Node?, x: Node)
    requires Distinct(tree) && p in Nodes(tree) && last == LastOf(Kids(tree, p)) && x !in Nodes(tree)
    requires Spelled(was, tree, null) && LinkedIn(was, LinksOf(Nodes(tree) + {x}), p, last, x)
    ensures Linked(Graft(tree, p, x), null)
  {
    var now := LinksOf(Nodes(tree) + {x});
    GraftSpelled(was, now, tree, null, p, last, x);
    GraftNodes(tree, p, x);
    LinkedIsSpelled(Nodes(tree) + {x}, Graft(tree, p, x), null);
  }

  // Every node is found by the route of its path.
  lemma RouteLeadsHere(tree: Forest<Node>, htable: map<string, Node>, node: Node)
    requires tree.Cons? && tree.rest.Nil? && tree.head.path == "" && Distinct(tree)
    requires Placed(tree, []) && Indexed(htable, Nodes(tree.kids)) && node in Nodes(tree)
    ensures Leads(tree, RouteOf(node.path), node)
  {
    PathsAreUnique(tree, htable);
    RouteLeads(tree, [], node);
    assert RouteOf(node.path)[0..] == RouteOf(node.path);
  }

  lemma NotFound(htable: map<string, Node>, tree: Forest<Node>, path: string)
    requires tree.Cons? && tree.rest.Nil? && tree.head.path == "" && path != ""
    requires Indexed(htable, Nodes(tree.kids)) && path !in htable
    ensures forall n | n in Nodes(tree) :: n.path != path
  {
  }

  lemma {:induction false} AppendKids(f: Forest<Node>, x: Node)
    requires x !in Nodes(f)
    ensures x in Nodes(AppendEnd(f, x)) && Kids(AppendEnd(f, x), x) == Nil
  {
    match f
    case Nil =>
    case Cons(h, k, r) =>
      AppendKids(r, x);
  }

  lemma {:induction false} NewHasNoKids(f: Forest<Node>, p: Node, x: Node)
    requires Distinct(f) && p in Nodes(f) && x !in Nodes(f)
    ensures x in Nodes(Graft(f, p, x)) && Kids(Graft(f, p, x), x) == Nil
  {
    var Cons(h, k, r) := f;
    if h == p {
      AppendKids(k, x);
    } else if p in Nodes(k) {
      NewHasNoKids(k, p, x);
    } else {
      NewHasNoKids(r, p, x);
      GraftElsewhere(k, p, x);
    }
  }

  /** Not empty, and not starting with the separator. */
  predicate WellFormed(path: string) {
    path != "" && path[0] != '/'
  }

  /** The root and the folders of the path before position `n`. */
  function FoldersOf(path: string, n: nat): (route: seq<string>)
    requires n <= |path|
    ensures route != []
  {
    [""] + SlashPrefixes(path, n)
  }

  lemma SameFolders(path: string, curpos: nat, pos: nat)
    requires curpos <= pos <= |path| && SlashPrefixes(path, pos) == SlashPrefixes(path, curpos)
    ensures FoldersOf(path, pos) == FoldersOf(path, curpos)
  {
  }

  // A slash makes one more folder, below the folders before it.
  lemma FolderStep(f: Forest<Label>, path: string, pos: nat)
    requires WellFormed(path) && pos < |path| && path[pos] == '/'
    ensures pos > 0 && RouteOf(path[..pos]) == FoldersOf(path, pos) + [path[..pos]] == FoldersOf(path, pos + 1)
    ensures Insert(Insert(f, FoldersOf(path, pos), true), FoldersOf(path, pos) + [path[..pos]], true)
         == Insert(f, FoldersOf(path, pos + 1), true)
  {
    hide Insert;
    RouteOfFolder(path, pos);
    InsertViaFolder(f, FoldersOf(path, pos), path[..pos], true);
  }

  lemma AtTheRoot(tree: Forest<Node>, path: string)
    requires tree.Cons? && tree.head.path == ""
    ensures Leads(tree, FoldersOf(path, 0), tree.head) && tree.head in Nodes(tree) && Kids(tree, tree.head) == tree.kids
    ensures Insert(Shape(tree), FoldersOf(path, 0), true) == Shape(tree)
  {
    InsertPresent(tree, [""], tree.head, true);
  }

  /** What the index gained are paths of at most `n` characters. */
  ghost predicate GrewBy(was: map<string, Node>, now: map<string, Node>, n: int) {
    forall p | p in now && p !in was :: |p| <= n
  }

  lemma GrewByNothing(was: map<string, Node>, n: int)
    ensures GrewBy(was, was, n)
  {
  }

  lemma GrewByBoth(was: map<string, Node>, mid: map<string, Node>, now: map<string, Node>, m: int, n: int)
    requires GrewBy(was, mid, n) && GrewBy(mid, now, m) && m <= n
    ensures GrewBy(was, now, n)
  {
  }

  /** The entry a path names: a slash at the end only says that it is a folder. */
  function Entry(path: string): string
    requires path != ""
  {
    if path[|path| - 1] == '/' then path[..|path| - 1] else path
  }

  lemma {:induction false} LeadsToLast(f: Forest<Node>, route: seq<string>, node: Node)
    requires route != [] && Leads(f, route, node)
    ensures node.path == route[|route| - 1]
    decreases |route|, f
  {
    if f.head.path != route[0] {
      LeadsToLast(f.rest, route, node);
    } else if |route| > 1 {
      LeadsToLast(f.kids, route[1..], node);
    }
  }

  /** gftp_bookmarks and gftp_bookmarks_htable. */
  class Bookmarks {
    const root: Node
    var htable: map<string, Node>
    ghost var tree: Forest<Node>
    ghost var nodes: set<Node>

    ghost predicate Valid()
      reads this, nodes
    {
      nodes == Nodes(tree) && tree.Cons? && tree.head == root && tree.rest.Nil? && root.path == "" && root.isfolder &&
      Linked(tree, null) && Distinct(tree) && Placed(tree, []) && Indexed(htable, Nodes(tree.kids))
    }

    ghost function Content(): Forest<Label>
      reads this
    {
      Shape(tree)
    }

    constructor ()
      ensures Valid() && Content() == Cons(Label("", true), Nil, Nil) && fresh(nodes)
    {
      var top := new Node("", true);
      root := top;
      htable := map[];
      tree := Cons(top, Nil, Nil);
      nodes := {top};
      new;
      assert Shape(tree.kids) == Nil && Shape(tree.rest) == Nil;
    }

    // The last of a folder's children, found by walking along the chain; null if it has none.
    static method LastChild(preventry: Node, ghost kids: Forest<Node>) returns (endentry: Node?)
      requires preventry.children == First(kids) && Linked(kids, preventry)
      ensures endentry == LastOf(kids)
    {
      endentry := preventry.children;
      if endentry != null {
        ghost var f := kids;
        while endentry.next != null
          invariant f.Cons? && endentry == f.head && Linked(f, preventry) && LastOf(f) == LastOf(kids)
          decreases f
        {
          endentry := endentry.next;
          f := f.rest;
        }
      }
    }

    // The assignments that link an entry in, and nothing but the links they change.
    static method LinkUp(entry: Node, preventry: Node, endentry: Node?, ghost nodes: set<Node>)
      requires preventry in nodes && entry !in nodes && entry.children == null
      requires if preventry.children == null then endentry == null else endentry != null && endentry in nodes
      modifies nodes, entry
      ensures LinkedIn(old(LinksOf(nodes)), LinksOf(nodes + {entry}), preventry, endentry, entry)
    {
      entry.prev := preventry;
      entry.next := null;
      if preventry.children == null {
        preventry.children := entry;
      } else {
        endentry.next := entry;
      }
    }

    /** Links an entry in behind the last child of `preventry`, and enters it into the index. */
    method Attach(entry: Node, preventry: Node, endentry: Node?, ghost route: seq<string>)
      requires Valid() && entry !in nodes && entry.children == null
      requires route != [] && Leads(tree, route, preventry)
      requires preventry in nodes && endentry == LastOf(Kids(tree, preventry))
      requires RouteOf(entry.path) == route + [entry.path]
      requires entry.path != "" && entry.path !in htable
      modifies this, nodes, entry
      ensures Valid() && tree == Graft(old(tree), preventry, entry) && htable == old(htable)[entry.path := entry]
    {
      hide Leads, Graft, Spelled, LinkedIn, LinksOf, Kids, LastOf, RouteOf, Placed, Distinct, Linked, Indexed, Nodes;
      ghost var was := LinksOf(nodes);
      ghost var grown := Graft(tree, preventry, entry);
      Attachable(htable, tree, root, preventry, endentry, route, entry);
      htable := htable[entry.path := entry];
      LinkUp(entry, preventry, endentry, nodes);
      Attached(was, old(tree), preventry, endentry, entry) by {
        assert Spelled(was, old(tree), null);
      }
      tree := grown;
      nodes := nodes + {entry};
      assert Valid();
    }

    /** Looks a folder up and makes it if it is missing; also finds where its next child goes. */
    method FolderFor(path: string, preventry: Node, endentry: Node?, ghost route: seq<string>)
      returns (folder: Node, last: Node?)
      requires Valid() && route != [] && Leads(tree, route, preventry)
      requires preventry in nodes && endentry == LastOf(Kids(tree, preventry))
      requires RouteOf(path) == route + [path] && path != ""
      modifies this, nodes
      ensures Valid() && fresh(nodes - old(nodes))
      ensures Content() == Insert(old(Content()), route + [path], true)
      ensures Leads(tree, route + [path], folder)
      ensures folder in nodes && last == LastOf(Kids(tree, folder))
      ensures GrewBy(old(htable), htable, |path|)
    {
      hide Graft, Placed, Distinct, RouteOf, Insert, Shape, Linked;
      ghost var before := tree;
      if path !in htable {
        folder := new Node(path, true);
        NotFound(htable, tree, path);
        GraftIsInsert(tree, route, preventry, folder);
        GraftNodes(tree, preventry, folder);
        Attach(folder, preventry, endentry, route);
        last := null;
        RouteLeadsHere(tree, htable, folder);
        NewHasNoKids(before, preventry, folder);
      } else {
        folder := htable[path];
        KidsLinked(tree, null, folder);
        last := LastChild(folder, Kids(tree, folder));
        RouteLeadsHere(tree, htable, folder);
        InsertPresent(tree, route + [path], folder, true);
      }
    }

    // The next slash at or after `curpos`, or the end of the string.
    static method Strchr(path: string, curpos: nat) returns (pos: nat)
      requires curpos <= |path|
      ensures curpos <= pos <= |path|
      ensures forall k | curpos <= k < pos :: path[k] != '/'
      ensures pos < |path| ==> path[pos] == '/'
    {
      pos := curpos;
      while pos < |path| && path[pos] != '/'
        invariant curpos <= pos <= |path| && forall k | curpos <= k < pos :: path[k] != '/'
      {
        pos := pos + 1;
      }
    }

    // The folders of the path, from the root down.
    method AddFolders(path: string) returns (preventry: Node)
      requires Valid() && WellFormed(path)
      modifies this, nodes
      ensures Valid() && fresh(nodes - old(nodes))
      ensures Content() == Insert(old(Content()), FoldersOf(path, |path|), true)
      ensures Leads(tree, FoldersOf(path, |path|), preventry) && preventry in nodes
      ensures GrewBy(old(htable), htable, |path| - 1)
    {
      hide Graft, RouteOf, Insert, Kids, Leads, LastOf, FoldersOf, SlashPrefixes, GrewBy, Nodes;
      AtTheRoot(tree, path);
      preventry := root;
      var endentry := LastChild(root, tree.kids);
      var curpos := 0;
      GrewByNothing(htable, |path| - 1);
      while true
        invariant curpos <= |path| && (curpos == 0 || path[curpos - 1] == '/')
        invariant Valid() && fresh(nodes - old(nodes))
        invariant Content() == Insert(old(Content()), FoldersOf(path, curpos), true)
        invariant Leads(tree, FoldersOf(path, curpos), preventry)
        invariant preventry in nodes && endentry == LastOf(Kids(tree, preventry))
        invariant GrewBy(old(htable), htable, |path| - 1)
        decreases |path| - curpos
      {
        var pos := Strchr(path, curpos);
        NoSlashNoPrefix(path, curpos, pos);
        SameFolders(path, curpos, pos);
        if pos == |path| {
          break;
        }
        FolderStep(old(Content()), path, pos);
        ghost var grown := htable;
        preventry, endentry := FolderFor(path[..pos], preventry, endentry, FoldersOf(path, pos));
        GrewByBoth(old(htable), grown, htable, pos, |path| - 1);
        curpos := pos + 1;
      }
    }

    /**
     * gftp_add_bookmark: a path with a slash at its end only makes folders; any
     * other entry goes behind the last child of the folder its path names.
     */
    method AddBookmark(path: string)
      requires Valid() && WellFormed(path)
      requires path[|path| - 1] != '/' ==> path !in htable
      modifies this, nodes
      ensures Valid() && fresh(nodes - old(nodes))
      ensures Content() == Insert(old(Content()), RouteOf(Entry(path)), path[|path| - 1] == '/')
    {
      hide Graft, Placed, Distinct, Insert, Shape, Linked, LastOf, Kids;
      var preventry := AddFolders(path);
      if path[|path| - 1] == '/' {
        RouteOfFolder(path, |path| - 1);
        assert FoldersOf(path, |path|) == FoldersOf(path, |path| - 1) + [Entry(path)];
      } else {
        preventry := Parent(path, preventry);
        ghost var kids := Kids(tree, preventry);
        KidsLinked(tree, null, preventry);
        var endentry := LastChild(preventry, kids);
        var entry := new Node(path, false);
        NotFound(htable, tree, path);
        GraftIsInsert(tree, FoldersOf(path, |path|), preventry, entry);
        GraftNodes(tree, preventry, entry);
        InsertViaFolder(old(Content()), FoldersOf(path, |path|), path, false);
        Attach(entry, preventry, endentry, FoldersOf(path, |path|));
      }
    }

    // Cuts the path at its last slash and looks what is before it up in the index.
    method Parent(path: string, ghost made: Node) returns (preventry: Node)
      requires Valid() && WellFormed(path) && path[|path| - 1] != '/'
      requires made in nodes && Leads(tree, FoldersOf(path, |path|), made)
      ensures preventry == made
    {
      hide Graft, Placed, Distinct, Insert, Shape, Linked, LastOf, Kids;
      var curpos := |path|;
      while curpos > 0 && path[curpos - 1] != '/'
        invariant 0 <= curpos <= |path| && forall k | curpos <= k < |path| :: path[k] != '/'
      {
        curpos := curpos - 1;
      }
      NoSlashNoPrefix(path, curpos, |path|);
      LeadsToLast(tree, FoldersOf(path, |path|), made);
      if curpos == 0 {
        preventry := root;
      } else {
        assert made.path == path[..curpos - 1];
        assert nodes == {root} + Nodes(tree.kids) + Nodes(tree.rest);
        preventry := htable[path[..curpos - 1]];
      }
    }
  }

  // ----- where every entry stands -----

  /** What a path holds before the last slash among its first `n` characters. */
  function FolderUpTo(path: string, n: nat): string
    requires n <= |path|
  {
    if n == 0 then "" else if path[n - 1] == '/' then path[..n - 1] else FolderUpTo(path, n - 1)
  }

  lemma {:induction false} LastFolder(path: string, n: nat)
    requires n <= |path|
    ensures FoldersOf(path, n)[|FoldersOf(path, n)| - 1] == FolderUpTo(path, n)
  {
    if n > 0 {
      LastFolder(path, n - 1);
    }
  }

  /** The siblings themselves, first to last. */
  function Chain(f: Forest<Node>): seq<Node> {
    match f
    case Nil => []
    case Cons(h, k, r) => [h] + Chain(r)
  }

  lemma {:induction false} ChainNoRepeats(f: Forest<Node>)
    requires Distinct(f)
    ensures NoRepeats(Chain(f)) && forall i | 0 <= i < |Chain(f)| :: Chain(f)[i] in Nodes(f)
  {
    if f.Cons? {
      ChainNoRepeats(f.rest);
      NoRepeatsJoin([f.head], Chain(f.rest));
    }
  }

  lemma {:induction false} StandsUnder(f: Forest<Node>, above: seq<string>, parent: Node, node: Node)
    requires Linked(f, parent) && Placed(f, above) && Distinct(f) && node in Nodes(f)
    requires above != [] && parent.path == above[|above| - 1] && parent !in Nodes(f)
    ensures node.prev != null && |RouteOf(node.path)| >= 2
    ensures node.prev.path == RouteOf(node.path)[|RouteOf(node.path)| - 2]
    ensures if node.prev in Nodes(f) then node in Chain(Kids(f, node.prev)) else node.prev == parent && node in Chain(f)
  {
    var Cons(h, k, r) := f;
    if node == h {
    } else if node in Nodes(k) {
      StandsUnder(k, above + [h.path], h, node);
    } else {
      StandsUnder(r, above, parent, node);
    }
  }

  /**
   * The parent of an entry is the entry of its path up to the last slash, which
   * is in the index, or the root if there is no slash; and the entry is exactly
   * once among the children its parent leads to.
   */
  lemma EntryUnderItsFolder(b: Bookmarks, node: Node)
    requires b.Valid() && node in Nodes(b.tree.kids)
    ensures node.path in b.htable && b.htable[node.path] == node
    ensures node.prev != null && node.prev in Nodes(b.tree)
    ensures var folder := FolderUpTo(node.path, |node.path|);
            if folder == "" then node.prev == b.root else folder in b.htable && node.prev == b.htable[folder]
    ensures var siblings := Kids(b.tree, node.prev);
            node.prev.children == First(siblings) && Linked(siblings, node.prev) &&
            node in Chain(siblings) && NoRepeats(Chain(siblings))
  {
    var tree := b.tree;
    PathsAreUnique(tree, b.htable);
    assert node.path != "";
    StandsUnder(tree.kids, [""], b.root, node);
    LastFolder(node.path, |node.path|);
    var route := RouteOf(node.path);
    assert route[|route| - 2] == FoldersOf(node.path, |node.path|)[|route| - 2];
    KidsLinked(tree, null, node.prev);
    KidsDistinct(tree, node.prev);
    ChainNoRepeats(Kids(tree, node.prev));
  }

  lemma {:induction false} KidsDistinct(f: Forest<Node>, p: Node)
    requires Distinct(f) && p in Nodes(f)
    ensures Distinct(Kids(f, p))
  {
    var Cons(h, k, r) := f;
    if h == p {
    } else if p in Nodes(k) {
      KidsDistinct(k, p);
    } else {
      KidsDistinct(r, p);
    }
  }
}
