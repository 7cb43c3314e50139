/**
 * The bookmarks file: what is written for a tree, and that reading it back
 * makes the same tree again.
 */
module BookmarkFile {
  import opened Basics
  import opened BookmarkTree
  import opened BookmarkAdd

  // ----- lines -----

  // The buffer of 255 bytes takes 254 and the final NUL.
  const ROOM := 254

  /** How much of the file fgets takes. */
  function Taken(file: string, n: nat): (t: nat)
    requires n <= |file| && n <= ROOM
    ensures n <= t <= |file| && t <= ROOM && (file != "" ==> t > 0)
    decreases ROOM - n
  {
    if n == |file| || n == ROOM then n else if file[n] == '\n' then n + 1 else Taken(file, n + 1)
  }

  /** What successive calls of fgets return. */
  function Chunks(file: string): seq<string> {
    if file == "" then [] else [file[..Taken(file, 0)]] + Chunks(file[Taken(file, 0)..])
  }

  /** The lines one after the other, each with its newline. */
  function Join(lines: seq<string>): string {
    if lines == [] then "" else lines[0] + "\n" + Join(lines[1..])
  }

  /** A line that fgets takes whole. */
  predicate Fits(line: string) {
    '\n' !in line && |line| < ROOM
  }

  function Terminated(lines: seq<string>): seq<string> {
    if lines == [] then [] else [lines[0] + "\n"] + Terminated(lines[1..])
  }

  lemma {:induction false} TakesLine(line: string, rest: string, n: nat)
    requires Fits(line) && n <= |line|
    ensures Taken(line + "\n" + rest, n) == |line| + 1
    decreases |line| - n
  {
    var file := line + "\n" + rest;
    if n < |line| {
      assert file[n] == line[n] && line[n] in line;
      TakesLine(line, rest, n + 1);
    }
  }

  lemma {:induction false} ChunksOfLines(lines: seq<string>)
    requires forall i | 0 <= i < |lines| :: Fits(lines[i])
    ensures Chunks(Join(lines)) == Terminated(lines)
  {
    if lines != [] {
      var file := Join(lines);
      TakesLine(lines[0], Join(lines[1..]), 0);
      assert file[..|lines[0]| + 1] == lines[0] + "\n" && file[|lines[0]| + 1..] == Join(lines[1..]);
      ChunksOfLines(lines[1..]);
    }
  }

  lemma {:induction false} JoinJoins(a: seq<string>, b: seq<string>)
    ensures Join(a + b) == Join(a) + Join(b)
  {
    if a == [] {
      assert a + b == b;
    } else {
      assert (a + b)[0] == a[0] && (a + b)[1..] == a[1..] + b;
      JoinJoins(a[1..], b);
      assert (a[0] + "\n") + (Join(a[1..]) + Join(b)) == (a[0] + "\n" + Join(a[1..])) + Join(b);
    }
  }

  // ----- what a line says -----

  /** The line without its newline, and without a carriage return before it. */
  function Strip(line: string): string {
    var s := if line != "" && line[|line| - 1] == '\n' then line[..|line| - 1] else line;
    if s != "" && s[|s| - 1] == '\r' then s[..|s| - 1] else s
  }

  /** The line without the brackets and blanks at its end. */
  function Trim(line: string): (t: string)
    requires line != "" && line[0] == '['
    ensures t != "" && t[0] == '['
  {
    if line[|line| - 1] == ' ' || line[|line| - 1] == ']' then Trim(line[..|line| - 1]) else line
  }

  /** The path, if the line starts a section. */
  function Header(chunk: string): seq<string> {
    var line := Strip(chunk);
    if line != "" && line[0] == '[' then [Trim(line)[1..]] else []
  }

  /** The path of each section, in the order of the file. */
  function Sections(chunks: seq<string>): seq<string> {
    if chunks == [] then [] else Header(chunks[0]) + Sections(chunks[1..])
  }

  lemma {:induction false} SectionsJoin(a: seq<string>, b: seq<string>)
    ensures Sections(a + b) == Sections(a) + Sections(b)
  {
    hide Header;
    if a == [] {
      assert a + b == b;
    } else {
      assert (a + b)[0] == a[0] && (a + b)[1..] == a[1..] + b;
      SectionsJoin(a[1..], b);
      assert Header(a[0]) + (Sections(a[1..]) + Sections(b)) == (Header(a[0]) + Sections(a[1..])) + Sections(b);
    }
  }

  // ----- reading -----

  /** The tree after entries of the given paths were added in order. */
  function InsertAll(f: Forest<Label>, paths: seq<string>): Forest<Label>
    requires forall i | 0 <= i < |paths| :: WellFormed(paths[i])
    decreases |paths|
  {
    if paths == [] then f
    else
      var last := paths[|paths| - 1];
      assert WellFormed(last);
      Insert(InsertAll(f, paths[..|paths| - 1]), RouteOf(Entry(last)), last[|last| - 1] == '/')
  }

  /** Every path can be added, and no bookmark is there already when its turn comes. */
  ghost predicate Readable(paths: seq<string>) {
    (forall i | 0 <= i < |paths| :: WellFormed(paths[i])) &&
    forall i, j | 0 <= i < j < |paths| && paths[j][|paths[j]| - 1] != '/' :: paths[j] !in RouteOf(Entry(paths[i]))
  }

  /** The paths of all entries. */
  ghost function PathsIn(f: Forest<Label>): set<string> {
    match f
    case Nil => {}
    case Cons(h, k, r) => {h.path} + PathsIn(k) + PathsIn(r)
  }

  lemma {:induction false} InsertPaths(f: Forest<Label>, route: seq<string>, isfolder: bool)
    requires route != []
    ensures PathsIn(Insert(f, route, isfolder)) == PathsIn(f) + (set s | s in route)
    decreases |route|, f
  {
    assert route == [route[0]] + route[1..];
    match f
    case Nil =>
      if |route| > 1 {
        InsertPaths(Nil, route[1..], isfolder);
      }
    case Cons(h, k, r) =>
      if h.path != route[0] {
        InsertPaths(r, route, isfolder);
      } else if |route| > 1 {
        InsertPaths(k, route[1..], isfolder);
      }
  }

  lemma {:induction false} ShapePaths(f: Forest<Node>)
    ensures forall n | n in Nodes(f) :: n.path in PathsIn(Shape(f))
    ensures forall p | p in PathsIn(Shape(f)) :: exists n :: n in Nodes(f) && n.path == p
  {
    match f
    case Nil =>
    case Cons(h, k, r) =>
      ShapePaths(k);
      ShapePaths(r);
      assert h in Nodes(f);
      forall p | p in PathsIn(Shape(f))
        ensures exists n :: n in Nodes(f) && n.path == p
      {
        if p != h.path {
          if p in PathsIn(Shape(k)) {
            var n :| n in Nodes(k) && n.path == p;
            assert n in Nodes(f);
          } else {
            var n :| n in Nodes(r) && n.path == p;
            assert n in Nodes(f);
          }
        }
      }
  }

  // The index has a path exactly if the tree has an entry with it.
  lemma IndexHasPaths(b: Bookmarks, path: string)
    requires b.Valid()
    ensures path in b.htable <==> path != "" && path in PathsIn(b.Content())
  {
    ShapePaths(b.tree);
    PathsAreUnique(b.tree, b.htable);
    if path in PathsIn(b.Content()) {
      var n :| n in Nodes(b.tree) && n.path == path;
    }
    if path in b.htable {
      assert b.htable[path] in Nodes(b.tree);
    }
  }

  /** fgets */
  method Fgets(file: string) returns (chunk: string, rest: string)
    requires file != ""
    ensures chunk == file[..Taken(file, 0)] && rest == file[Taken(file, 0)..]
  {
    var n := 0;
    while n < |file| && n < ROOM && file[n] != '\n'
      invariant n <= |file| && n <= ROOM && Taken(file, n) == Taken(file, 0)
    {
      n := n + 1;
    }
    if n < |file| && n < ROOM {
      n := n + 1;
    }
    chunk, rest := file[..n], file[n..];
  }

  // The path between the brackets: what is cut off at the end of the line.
  method ReadHeader(chunk: string) returns (header: seq<string>)
    ensures header == Header(chunk) && |header| <= 1
  {
    var buf := chunk;
    if buf != "" && buf[|buf| - 1] == '\n' {
      buf := buf[..|buf| - 1];
    }
    if buf != "" && buf[|buf| - 1] == '\r' {
      buf := buf[..|buf| - 1];
    }
    if buf == "" || buf[0] != '[' {
      return [];
    }
    while buf[|buf| - 1] == ' ' || buf[|buf| - 1] == ']'
      invariant buf != "" && buf[0] == '[' && [Trim(buf)[1..]] == Header(chunk)
      decreases |buf|
    {
      buf := buf[..|buf| - 1];
    }
    header := [buf[1..]];
  }

  /**
   * gftp_read_bookmarks, as far as the tree goes: every section of the file is
   * added, in order.
   */
  method ReadBookmarks(b: Bookmarks, file: string)
    requires b.Valid() && b.Content() == Cons(Label("", true), Nil, Nil)
    requires Readable(Sections(Chunks(file)))
    modifies b, b.nodes
    ensures b.Valid() && fresh(b.nodes - old(b.nodes))
    ensures b.Content() == InsertAll(Cons(Label("", true), Nil, Nil), Sections(Chunks(file)))
  {
    hide RouteOf, Insert, Header, Taken, Readable;
    ghost var paths := Sections(Chunks(file));
    ghost var done := 0;
    var rest := file;
    while rest != ""
      invariant done <= |paths| && Sections(Chunks(rest)) == paths[done..]
      invariant b.Valid() && fresh(b.nodes - old(b.nodes))
      invariant AddedUpTo(b.Content(), paths, done)
      decreases |rest|
    {
      var chunk;
      ghost var was := rest;
      chunk, rest := Fgets(rest);
      var header := ReadHeader(chunk);
      assert b.Valid();
      ghost var todo := Sections(Chunks(rest));
      assert Sections(Chunks(was)) == header + todo;
      if header == [] {
        assert header + todo == todo;
      } else {
        OneHeader(paths, done, header, todo);
        AddSection(b, header[0], paths, done);
        done := done + 1;
      }
    }
    assert paths[..done] == paths;
  }

  /** The first `done` of the paths were added to an empty tree. */
  ghost predicate AddedUpTo(f: Forest<Label>, paths: seq<string>, done: nat) {
    done <= |paths| && (forall i | 0 <= i < done :: WellFormed(paths[i])) &&
    f == InsertAll(Cons(Label("", true), Nil, Nil), paths[..done])
  }

  lemma OneHeader(paths: seq<string>, done: nat, header: seq<string>, todo: seq<string>)
    requires done <= |paths| && paths[done..] == header + todo && |header| == 1
    ensures done < |paths| && paths[done] == header[0] && paths[done + 1..] == todo
  {
    assert paths[done] == paths[done..][0];
    assert paths[done + 1..] == paths[done..][1..];
  }

  method AddSection(b: Bookmarks, path: string, ghost paths: seq<string>, ghost done: nat)
    requires b.Valid() && Readable(paths) && done < |paths| && paths[done] == path
    requires AddedUpTo(b.Content(), paths, done)
    modifies b, b.nodes
    ensures b.Valid() && fresh(b.nodes - old(b.nodes))
    ensures AddedUpTo(b.Content(), paths, done + 1)
  {
    hide RouteOf, Insert;
    NotThereYet(b, paths, done);
    assert WellFormed(path);
    b.AddBookmark(path);
    assert paths[..done + 1][..done] == paths[..done];
  }

  lemma {:induction false} InsertAllPaths(f: Forest<Label>, paths: seq<string>)
    requires forall i | 0 <= i < |paths| :: WellFormed(paths[i])
    ensures forall p | p in PathsIn(InsertAll(f, paths)) ::
              p in PathsIn(f) || exists i :: 0 <= i < |paths| && p in RouteOf(Entry(paths[i]))
  {
    hide RouteOf, Insert;
    if paths != [] {
      var n := |paths| - 1;
      InsertAllPaths(f, paths[..n]);
      InsertPaths(InsertAll(f, paths[..n]), RouteOf(Entry(paths[n])), paths[n][|paths[n]| - 1] == '/');
      forall p | p in PathsIn(InsertAll(f, paths)) && p !in PathsIn(f)
        ensures exists i :: 0 <= i < |paths| && p in RouteOf(Entry(paths[i]))
      {
        if p !in RouteOf(Entry(paths[n])) {
          var i :| 0 <= i < n && p in RouteOf(Entry(paths[..n][i]));
          assert p in RouteOf(Entry(paths[i]));
        }
      }
    }
  }

  lemma NotThereYet(b: Bookmarks, paths: seq<string>, done: nat)
    requires b.Valid() && Readable(paths) && done < |paths|
    requires b.Content() == InsertAll(Cons(Label("", true), Nil, Nil), paths[..done])
    ensures paths[done][|paths[done]| - 1] != '/' ==> paths[done] !in b.htable
  {
    hide RouteOf, Insert, Shape, Linked, Placed, Distinct, Indexed;
    var path := paths[done];
    var empty := Cons(Label("", true), Nil, Nil);
    if path[|path| - 1] != '/' && path in b.htable {
      IndexHasPaths(b, path);
      InsertAllPaths(empty, paths[..done]);
      assert path !in PathsIn(empty) by {
        assert PathsIn(empty.kids) == {} && PathsIn(empty.rest) == {};
      }
      assert false;
    }
  }

  // ----- writing -----

  /** The entries that are written: those without children, in preorder. */
  function Leaves(f: Forest<Node>): seq<Node> {
    match f
    case Nil => []
    case Cons(h, k, r) => (if k.Nil? then [h] else Leaves(k)) + Leaves(r)
  }

  function LeavesAhead(t: Trail): seq<Node> {
    match t
    case Top => []
    case Up(_, right, above) => Leaves(right) + LeavesAhead(above)
  }

  lemma {:induction false} AscendLeaves(right: Forest<Node>, trail: Trail)
    ensures var (right', trail') := Ascend(right, trail);
            Leaves(right') + LeavesAhead(trail') == Leaves(right) + LeavesAhead(trail)
    decreases trail
  {
    if right.Nil? && trail.Up? {
      AscendLeaves(trail.right, trail.above);
      assert [] + LeavesAhead(trail) == LeavesAhead(trail);
    }
  }

  // The path from its first character that is not a slash on.
  function WithoutSlashes(path: string): string {
    if path != "" && path[0] == '/' then WithoutSlashes(path[1..]) else path
  }

  /** The lines of one section; what a bookmark has besides its path is given by `fields`. */
  function SectionLines(fields: string -> seq<string>, n: Node): seq<string> {
    [HeaderLine(n)] + RestLines(fields, n)
  }

  function HeaderLine(n: Node): string {
    "[" + WithoutSlashes(n.path) + (if n.isfolder then "/]" else "]")
  }

  function RestLines(fields: string -> seq<string>, n: Node): seq<string> {
    (if n.isfolder then [] else fields(n.path)) + [""]
  }

  function AllLines(fields: string -> seq<string>, leaves: seq<Node>): seq<string> {
    if leaves == [] then [] else SectionLines(fields, leaves[0]) + AllLines(fields, leaves[1..])
  }

  /** The text of the file. */
  function Written(comments: seq<string>, fields: string -> seq<string>, leaves: seq<Node>): string {
    Join(comments + [""] + AllLines(fields, leaves))
  }

  lemma {:induction false} SlashesDropped(slashes: string, rest: string)
    requires (forall i | 0 <= i < |slashes| :: slashes[i] == '/') && (rest == "" || rest[0] != '/')
    ensures WithoutSlashes(slashes + rest) == rest
  {
    if slashes == "" {
      assert slashes + rest == rest;
    } else {
      assert (slashes + rest)[1..] == slashes[1..] + rest;
      SlashesDropped(slashes[1..], rest);
    }
  }

  /** The text of a section: the path without the slashes at its start, in brackets, a slash marking a folder. */
  lemma SectionText(fields: string -> seq<string>, n: Node, slashes: string, rest: string)
    requires n.path == slashes + rest && (forall i | 0 <= i < |slashes| :: slashes[i] == '/') && (rest == "" || rest[0] != '/')
    ensures Join(SectionLines(fields, n)) ==
              if n.isfolder then "[" + rest + "/]\n\n" else "[" + rest + "]\n" + Join(fields(n.path)) + "\n"
  {
    hide WithoutSlashes;
    SlashesDropped(slashes, rest);
    JoinJoins([HeaderLine(n)], RestLines(fields, n));
    assert Join([""]) == "\n";
    if n.isfolder {
      assert RestLines(fields, n) == [""] && HeaderLine(n) == "[" + rest + "/]";
      assert Join([HeaderLine(n)]) == "[" + rest + "/]\n";
    } else {
      JoinJoins(fields(n.path), [""]);
      assert HeaderLine(n) == "[" + rest + "]";
      assert Join([HeaderLine(n)]) == "[" + rest + "]\n";
    }
  }

  // The text of one section.
  method WriteSection(fields: string -> seq<string>, n: Node) returns (text: string)
    ensures text == Join(SectionLines(fields, n))
  {
    var tempstr := n.path;
    while tempstr != "" && tempstr[0] == '/'
      invariant WithoutSlashes(tempstr) == WithoutSlashes(n.path)
      decreases |tempstr|
    {
      tempstr := tempstr[1..];
    }
    if n.isfolder {
      text := "[" + tempstr + "/]" + "\n";
      assert RestLines(fields, n) == [""];
    } else {
      text := "[" + tempstr + "]" + "\n" + Join(fields(n.path));
      JoinJoins(fields(n.path), [""]);
    }
    JoinJoins([HeaderLine(n)], RestLines(fields, n));
    assert Join([""]) == "\n";
    text := text + "\n";
  }

  /** The walk is below the root, which has no siblings. */
  predicate Rooted(f: Forest<Node>, trail: Trail)
    decreases trail
  {
    if trail.Top? then f.Nil? else Rooted(trail.right, trail.above)
  }

  lemma {:induction false} AscendRooted(right: Forest<Node>, trail: Trail)
    requires Rooted(right, trail)
    ensures var (right', trail') := Ascend(right, trail);
            Rooted(right', trail') && (right'.Nil? ==> trail'.Top?) &&
            Nodes(right') + TrailNodes(trail') <= Nodes(right) + TrailNodes(trail)
    decreases trail
  {
    if right.Nil? && trail.Up? {
      AscendRooted(trail.right, trail.above);
    }
  }

  function LeavesLeft(f: Forest<Node>, trail: Trail): seq<Node> {
    Leaves(f) + LeavesAhead(trail)
  }

  function NodesLeft(f: Forest<Node>, trail: Trail): nat {
    |Preorder(f)| + |Ahead(trail)|
  }

  // Going down to the children leaves the same entries to write.
  lemma GoDown(f: Forest<Node>, trail: Trail)
    requires f.Cons?
    ensures f.kids.Cons? ==> LeavesLeft(f.kids, Up(f.head, f.rest, trail)) == LeavesLeft(f, trail)
    ensures NodesLeft(f.kids, Up(f.head, f.rest, trail)) < NodesLeft(f, trail)
  {
    assert Leaves(f.kids) + (Leaves(f.rest) + LeavesAhead(trail)) == Leaves(f.kids) + Leaves(f.rest) + LeavesAhead(trail);
  }

  lemma GoRight(f: Forest<Node>, trail: Trail)
    requires f.Cons? && f.kids.Nil?
    ensures LeavesLeft(f, trail) == [f.head] + LeavesLeft(f.rest, trail)
    ensures NodesLeft(f.rest, trail) < NodesLeft(f, trail)
  {
    assert [f.head] + Leaves(f.rest) + LeavesAhead(trail) == [f.head] + (Leaves(f.rest) + LeavesAhead(trail));
  }

  // The next sibling, or that of the nearest ancestor which has one.
  method NextEntry(entry: Node, ghost right: Forest<Node>, ghost above: Trail)
    returns (tempentry: Node?, ghost f: Forest<Node>, ghost trail: Trail)
    requires entry.prev == ParentOf(above) && entry.next == First(right)
    requires Linked(right, ParentOf(above)) && LinkedTrail(above) && above.Up? && Rooted(right, above)
    ensures Stands(tempentry, f, trail) && Rooted(f, trail) && (tempentry == null ==> f.Nil?)
    ensures Nodes(f) + TrailNodes(trail) <= Nodes(right) + TrailNodes(above)
    ensures LeavesLeft(f, trail) == LeavesLeft(right, above) && NodesLeft(f, trail) == NodesLeft(right, above)
    ensures f.Nil? ==> LeavesLeft(f, trail) == []
  {
    if entry.next == null {
      var e := entry.prev;
      AscendLeaves(right, above);
      AscendPreorder(right, above);
      AscendRooted(right, above);
      f, trail := Ascend(right, above).0, Ascend(right, above).1;
      assert |Preorder(f) + Ahead(trail)| == |Preorder(right) + Ahead(above)|;
      assert Ascend(right, above) == Ascend(above.right, above.above);
      e, f, trail := Climb(e, above.right, above.above);
      tempentry := e.next;
    } else {
      tempentry, f, trail := entry.next, right, above;
    }
  }

  /**
   * gftp_write_bookmarks_file: walks the links from the first child of the root
   * and writes a section for each entry without children.
   */
  method WriteBookmarks(b: Bookmarks, comments: seq<string>, fields: string -> seq<string>) returns (file: string)
    requires b.Valid()
    ensures file == Written(comments, fields, Leaves(b.tree.kids))
  {
    hide Nodes, TrailNodes, Placed, Indexed, Distinct, SectionLines, Leaves, LeavesLeft, NodesLeft, Join, AllLines;
    hide Written, Linked, LinkedTrail, Stands;
    file := Join(comments) + "\n";
    ghost var f, trail := b.tree.kids, Up(b.root, Nil, Top);
    ghost var todo := Leaves(f);
    FirstToWrite(comments, fields, f, b.root);
    FirstChild(b);
    var tempentry := b.root.children;
    while tempentry != null
      invariant Stands(tempentry, f, trail) && Rooted(f, trail) && (tempentry == null ==> f.Nil?)
      invariant Nodes(f) + TrailNodes(trail) <= b.nodes
      invariant todo == LeavesLeft(f, trail) && (f.Nil? ==> todo == [])
      invariant file + Join(AllLines(fields, todo)) == Written(comments, fields, Leaves(b.tree.kids))
      decreases NodesLeft(f, trail)
    {
      AtNode(tempentry, f, trail);
      GoDown(f, trail);
      if tempentry.children != null {
        tempentry := tempentry.children;
        trail := Up(f.head, f.rest, trail);
        f := f.kids;
        continue;
      }
      GoRight(f, trail);
      OneSection(fields, todo);
      assert todo[1..] == LeavesLeft(f.rest, trail);
      var text := WriteSection(fields, tempentry);
      file := file + text;
      todo := todo[1..];
      AtNode(tempentry, f, trail);
      tempentry, f, trail := NextEntry(tempentry, f.rest, trail);
    }
  }

  lemma FirstChild(b: Bookmarks)
    requires b.Valid()
    ensures Stands(b.root.children, b.tree.kids, Up(b.root, Nil, Top))
    ensures b.root.children == null ==> b.tree.kids.Nil?
    ensures Nodes(b.tree.kids) + TrailNodes(Up(b.root, Nil, Top)) <= b.nodes
  {
  }

  lemma FirstToWrite(comments: seq<string>, fields: string -> seq<string>, f: Forest<Node>, root: Node)
    ensures LeavesLeft(f, Up(root, Nil, Top)) == Leaves(f) && (f.Nil? ==> Leaves(f) == [])
    ensures Join(comments) + "\n" + Join(AllLines(fields, Leaves(f))) == Written(comments, fields, Leaves(f))
    ensures Join(AllLines(fields, [])) == ""
  {
    assert Leaves(f) + (Leaves(Nil) + LeavesAhead(Top)) == Leaves(f);
    JoinJoins(comments, [""]);
    JoinJoins(comments + [""], AllLines(fields, Leaves(f)));
    assert Join([""]) == "\n";
  }

  lemma {:induction false} OneSection(fields: string -> seq<string>, todo: seq<Node>)
    requires todo != []
    ensures Join(AllLines(fields, todo)) == Join(SectionLines(fields, todo[0])) + Join(AllLines(fields, todo[1..]))
  {
    JoinJoins(SectionLines(fields, todo[0]), AllLines(fields, todo[1..]));
  }

  // ----- what a written section reads as -----

  predicate EndsTrimmed(path: string) {
    path != "" && (path[|path| - 1] == ' ' || path[|path| - 1] == ']')
  }

  // A header comes back whole exactly if its last character is not one that is cut off.
  lemma HeaderSurvives(path: string)
    ensures Header("[" + path + "]" + "\n") == [path] <==> !EndsTrimmed(path)
  {
    var line := "[" + path + "]";
    assert Strip(line + "\n") == line by {
      assert (line + "\n")[..|line|] == line;
    }
    assert line[..|line| - 1] == "[" + path;
    if EndsTrimmed(path) {
      TrimShortens("[" + path);
      assert Header(line + "\n") == [Trim(line)[1..]] && |Trim(line)[1..]| < |path|;
    } else {
      assert ("[" + path)[1..] == path;
    }
  }

  /**
   * A header line reads as what is between its opening bracket and all the closing
   * brackets and blanks at its end, whichever way the line ends.
   */
  lemma {:induction false} ReadsHeader(path: string, tail: string, eol: string)
    requires forall i | 0 <= i < |tail| :: tail[i] == ' ' || tail[i] == ']'
    requires eol in ["", "\n", "\r\n"] && (eol == "" ==> tail != "")
    requires path == "" || (path[|path| - 1] != ' ' && path[|path| - 1] != ']')
    requires path == "" || tail != "" || (path[|path| - 1] != '\n' && path[|path| - 1] != '\r')
    ensures Header("[" + path + tail + eol) == [path]
  {
    var line := "[" + path + tail;
    assert tail != "" ==> line[|line| - 1] == tail[|tail| - 1];
    assert Strip(line + eol) == line by {
      assert (line + eol)[..|line|] == line;
      if eol == "\r\n" {
        assert (line + eol)[..|line| + 1] == line + "\r";
        assert (line + "\r")[..|line|] == line;
      } else if eol == "" {
        assert line + eol == line;
      }
    }
    TrimsTail("[" + path, tail);
    assert ("[" + path)[1..] == path;
  }

  lemma {:induction false} TrimsTail(line: string, tail: string)
    requires line != "" && line[0] == '[' && line[|line| - 1] != ' ' && line[|line| - 1] != ']'
    requires forall i | 0 <= i < |tail| :: tail[i] == ' ' || tail[i] == ']'
    ensures Trim(line + tail) == line
  {
    if tail == "" {
      assert line + tail == line;
    } else {
      var k := |tail| - 1;
      assert (line + tail)[..|line + tail| - 1] == line + tail[..k];
      TrimsTail(line, tail[..k]);
    }
  }

  lemma {:induction false} TrimShortens(line: string)
    requires line != "" && line[0] == '['
    ensures |Trim(line)| <= |line|
    ensures line[|line| - 1] == ' ' || line[|line| - 1] == ']' ==> |Trim(line)| < |line|
  {
    if line[|line| - 1] == ' ' || line[|line| - 1] == ']' {
      TrimShortens(line[..|line| - 1]);
    }
  }

  /** The path as it stands between the brackets. */
  function Spelling(n: Node): string {
    if n.isfolder then n.path + "/" else n.path
  }

  /** An entry whose header fits a line and comes back as it was. */
  predicate Savable(n: Node) {
    WellFormed(n.path) && '\n' !in n.path && |Spelling(n)| + 2 < ROOM &&
    (!n.isfolder ==> n.path[|n.path| - 1] != '/' && !EndsTrimmed(n.path))
  }

  /** A line that fgets takes whole, and that starts no section. */
  predicate Plain(line: string) {
    Fits(line) && (line == "" || line[0] != '[')
  }

  lemma {:induction false} PlainLines(lines: seq<string>)
    requires forall i | 0 <= i < |lines| :: Plain(lines[i])
    ensures (forall i | 0 <= i < |lines| :: Fits(lines[i])) && Sections(Terminated(lines)) == []
  {
    if lines != [] {
      var line := lines[0] + "\n";
      assert line[..|line| - 1] == lines[0];
      PlainLines(lines[1..]);
    }
  }

  lemma {:induction false} TerminatedJoin(a: seq<string>, b: seq<string>)
    ensures Terminated(a + b) == Terminated(a) + Terminated(b)
  {
    if a == [] {
      assert a + b == b;
    } else {
      TerminatedJoin(a[1..], b);
      assert (a + b)[1..] == a[1..] + b;
    }
  }

  lemma {:induction false} SectionReads(fields: string -> seq<string>, n: Node)
    requires Savable(n) && forall i | 0 <= i < |fields(n.path)| :: Plain(fields(n.path)[i])
    ensures var lines := SectionLines(fields, n);
            (forall i | 0 <= i < |lines| :: Fits(lines[i])) && Sections(Terminated(lines)) == [Spelling(n)]
  {
    HeaderReads(n);
    RestReads(fields, n);
    hide Savable, Plain, Fits, Spelling, Header, Sections, Terminated, HeaderLine, RestLines;
    OneLine(HeaderLine(n));
    TerminatedJoin([HeaderLine(n)], RestLines(fields, n));
    SectionsJoin(Terminated([HeaderLine(n)]), Terminated(RestLines(fields, n)));
  }

  lemma RestReads(fields: string -> seq<string>, n: Node)
    requires forall i | 0 <= i < |fields(n.path)| :: Plain(fields(n.path)[i])
    ensures var rest := RestLines(fields, n);
            (forall i | 0 <= i < |rest| :: Fits(rest[i])) && Sections(Terminated(rest)) == []
  {
    PlainLines(RestLines(fields, n));
  }

  lemma OneLine(line: string)
    ensures Sections(Terminated([line])) == Header(line + "\n")
  {
  }

  lemma HeaderReads(n: Node)
    requires Savable(n)
    ensures Fits(HeaderLine(n)) && Header(HeaderLine(n) + "\n") == [Spelling(n)]
  {
    assert HeaderLine(n) == "[" + Spelling(n) + "]";
    HeaderSurvives(Spelling(n));
  }

  lemma {:induction false} AllSectionsRead(fields: string -> seq<string>, leaves: seq<Node>)
    requires forall i | 0 <= i < |leaves| :: Savable(leaves[i])
    requires forall i, j | 0 <= i < |leaves| && 0 <= j < |fields(leaves[i].path)| :: Plain(fields(leaves[i].path)[j])
    ensures var lines := AllLines(fields, leaves);
            (forall i | 0 <= i < |lines| :: Fits(lines[i])) && Sections(Terminated(lines)) == Spellings(leaves)
  {
    hide Savable, Fits, Plain, Spelling, SectionLines;
    if leaves != [] {
      SectionReads(fields, leaves[0]);
      AllSectionsRead(fields, leaves[1..]);
      TerminatedJoin(SectionLines(fields, leaves[0]), AllLines(fields, leaves[1..]));
      SectionsJoin(Terminated(SectionLines(fields, leaves[0])), Terminated(AllLines(fields, leaves[1..])));
    }
  }

  function Spellings(leaves: seq<Node>): seq<string> {
    if leaves == [] then [] else [Spelling(leaves[0])] + Spellings(leaves[1..])
  }

  /** What is written reads back as the paths of the leaves, in order. */
  lemma {:induction false} WrittenReads(comments: seq<string>, fields: string -> seq<string>, leaves: seq<Node>)
    requires forall i | 0 <= i < |comments| :: Plain(comments[i])
    requires forall i | 0 <= i < |leaves| :: Savable(leaves[i])
    requires forall i, j | 0 <= i < |leaves| && 0 <= j < |fields(leaves[i].path)| :: Plain(fields(leaves[i].path)[j])
    ensures Sections(Chunks(Written(comments, fields, leaves))) == Spellings(leaves)
  {
    hide Savable, Spelling, SectionLines;
    var top := comments + [""];
    var lines := AllLines(fields, leaves);
    AllSectionsRead(fields, leaves);
    ChunksOfLines(top + lines);
    TerminatedJoin(top, lines);
    SectionsJoin(Terminated(top), Terminated(lines));
    PlainLines(top);
  }

  // ----- the leaves rebuild the tree -----

  /** The forest with every entry that has children marked as a folder. */
  function Mended(f: Forest<Label>): Forest<Label> {
    match f
    case Nil => Nil
    case Cons(h, k, r) => Cons(Label(h.path, h.isfolder || k.Cons?), Mended(k), Mended(r))
  }

  /** No bookmark is used as a folder. */
  predicate Foldered(f: Forest<Label>) {
    match f
    case Nil => true
    case Cons(h, k, r) => (k.Cons? ==> h.isfolder) && Foldered(k) && Foldered(r)
  }

  lemma {:induction false} MendedIsSame(f: Forest<Label>)
    ensures Mended(f) == f <==> Foldered(f)
  {
    match f
    case Nil =>
    case Cons(h, k, r) =>
      MendedIsSame(k);
      MendedIsSame(r);
  }

  function Follow(f: Forest<Label>, g: Forest<Label>): Forest<Label> {
    match f
    case Nil => g
    case Cons(h, k, r) => Cons(h, k, Follow(r, g))
  }

  lemma {:induction false} FollowTwice(f: Forest<Label>, g: Forest<Label>, h: Forest<Label>)
    ensures Follow(Follow(f, g), h) == Follow(f, Follow(g, h))
  {
    if f.Cons? {
      FollowTwice(f.rest, g, h);
    }
  }

  ghost function Tops(f: Forest<Label>): set<string> {
    if f.Nil? then {} else {f.head.path} + Tops(f.rest)
  }

  lemma {:induction false} FollowTops(f: Forest<Label>, g: Forest<Label>)
    ensures Tops(Follow(f, g)) == Tops(f) + Tops(g)
  {
    if f.Cons? {
      FollowTops(f.rest, g);
    }
  }

  lemma {:induction false} InsertBehind(f: Forest<Label>, g: Forest<Label>, route: seq<string>, isfolder: bool)
    requires route != [] && route[0] !in Tops(f)
    ensures Insert(Follow(f, g), route, isfolder) == Follow(f, Insert(g, route, isfolder))
  {
    if f.Cons? {
      InsertBehind(f.rest, g, route, isfolder);
    }
  }

  predicate AllDeep(entries: seq<Node>, depth: nat) {
    forall i | 0 <= i < |entries| :: depth < |RouteOf(entries[i].path)|
  }

  /** Entries added in order, below the first `depth` stations of their routes. */
  function AddBelow(f: Forest<Label>, entries: seq<Node>, depth: nat): Forest<Label>
    requires AllDeep(entries, depth)
    decreases |entries|
  {
    if entries == [] then f
    else AddBelow(Insert(f, RouteOf(entries[0].path)[depth..], entries[0].isfolder), entries[1..], depth)
  }

  lemma {:induction false} AddBelowJoins(f: Forest<Label>, a: seq<Node>, b: seq<Node>, depth: nat)
    requires AllDeep(a, depth) && AllDeep(b, depth)
    ensures AllDeep(a + b, depth)
    ensures AddBelow(f, a + b, depth) == AddBelow(AddBelow(f, a, depth), b, depth)
    decreases |a|
  {
    hide RouteOf, Insert;
    if a == [] {
      assert a + b == b;
    } else {
      AddBelowJoins(Insert(f, RouteOf(a[0].path)[depth..], a[0].isfolder), a[1..], b, depth);
      assert (a + b)[1..] == a[1..] + b;
    }
  }

  // Entries that all go through one folder are added inside that folder.
  lemma {:induction false} AddInFolder(f: Forest<Label>, folder: string, inside: Forest<Label>, entries: seq<Node>, depth: nat)
    requires folder !in Tops(f)
    requires forall i | 0 <= i < |entries| ::
               depth + 1 < |RouteOf(entries[i].path)| && RouteOf(entries[i].path)[depth] == folder
    ensures AddBelow(Follow(f, Cons(Label(folder, true), inside, Nil)), entries, depth)
         == Follow(f, Cons(Label(folder, true), AddBelow(inside, entries, depth + 1), Nil))
    decreases |entries|
  {
    hide RouteOf;
    if entries != [] {
      var route := RouteOf(entries[0].path);
      InsertBehind(f, Cons(Label(folder, true), inside, Nil), route[depth..], entries[0].isfolder);
      assert route[depth..][0] == folder && route[depth..][1..] == route[depth + 1..];
      AddInFolder(f, folder, Insert(inside, route[depth + 1..], entries[0].isfolder), entries[1..], depth);
    }
  }

  /** The route of the path goes through all of `above`, and further. */
  predicate GoesThrough(above: seq<string>, path: string) {
    |above| < |RouteOf(path)| && RouteOf(path)[..|above|] == above
  }

  lemma {:induction false} LeavesBelow(f: Forest<Node>, above: seq<string>)
    requires Placed(f, above)
    ensures forall i | 0 <= i < |Leaves(f)| :: GoesThrough(above, Leaves(f)[i].path)
  {
    hide RouteOf;
    match f
    case Nil =>
    case Cons(h, k, r) =>
      LeavesBelow(k, above + [h.path]);
      LeavesBelow(r, above);
      forall i | 0 <= i < |Leaves(k)|
        ensures GoesThrough(above, Leaves(k)[i].path)
      {
        assert RouteOf(Leaves(k)[i].path)[..|above|] == RouteOf(Leaves(k)[i].path)[..|above| + 1][..|above|];
      }
  }

  lemma FirstMakesFolder(f: Forest<Label>, folder: string, entries: seq<Node>, depth: nat)
    requires folder !in Tops(f) && entries != []
    requires forall i | 0 <= i < |entries| ::
               depth + 1 < |RouteOf(entries[i].path)| && RouteOf(entries[i].path)[depth] == folder
    ensures AddBelow(f, entries, depth)
         == Follow(f, Cons(Label(folder, true), AddBelow(Nil, entries, depth + 1), Nil))
  {
    hide RouteOf;
    var route := RouteOf(entries[0].path);
    InsertBehind(f, Nil, route[depth..], entries[0].isfolder);
    assert Follow(f, Nil) == f by {
      FollowNil(f);
    }
    assert route[depth..][0] == folder && route[depth..][1..] == route[depth + 1..];
    AddInFolder(f, folder, Insert(Nil, route[depth + 1..], entries[0].isfolder), entries[1..], depth);
  }

  lemma {:induction false} FollowNil(f: Forest<Label>)
    ensures Follow(f, Nil) == f
  {
    if f.Cons? {
      FollowNil(f.rest);
    }
  }

  lemma {:induction false} LeavesRebuild(f: Forest<Node>, above: seq<string>, g: Forest<Label>)
    requires Placed(f, above) && Distinct(f) && UniquePaths(Nodes(f))
    requires forall n | n in Nodes(f) :: n.path !in Tops(g)
    requires AllDeep(Leaves(f), |above|)
    ensures AddBelow(g, Leaves(f), |above|) == Follow(g, Mended(Shape(f)))
  {
    hide RouteOf, Insert, AddBelow, AllDeep;
    match f
    case Nil =>
      FollowNil(g);
      NothingToAdd(g, |above|);
    case Cons(h, k, r) =>
      var mine := if k.Nil? then [h] else Leaves(k);
      var first := Cons(Label(h.path, h.isfolder || k.Cons?), Mended(Shape(k)), Nil);
      LeavesBelow(k, above + [h.path]);
      LeavesBelow(r, above);
      LeavesDeep(Leaves(k), above + [h.path]);
      LeavesDeep(Leaves(r), above);
      assert h in Nodes(f);
      if k.Nil? {
        LeafAlone(h, above, g);
      } else {
        LeavesRebuild(k, above + [h.path], Nil);
        SomeLeaf(k);
        FollowNil(Mended(Shape(k)));
        FolderRebuilds(Leaves(k), h.path, above, g);
      }
      assert AllDeep(mine, |above|) && AddBelow(g, mine, |above|) == Follow(g, first);
      AddBelowJoins(g, mine, Leaves(r), |above|);
      FollowTops(g, first);
      LeavesRebuild(r, above, Follow(g, first));
      FollowTwice(g, first, Mended(Shape(r)));
  }

  lemma NothingToAdd(g: Forest<Label>, depth: nat)
    ensures AllDeep([], depth) && AddBelow(g, [], depth) == g
  {
  }

  lemma LeavesDeep(entries: seq<Node>, above: seq<string>)
    requires forall i | 0 <= i < |entries| :: GoesThrough(above, entries[i].path)
    ensures AllDeep(entries, |above|)
  {
  }

  lemma {:induction false} FolderRebuilds(entries: seq<Node>, folder: string, above: seq<string>, g: Forest<Label>)
    requires entries != [] && folder !in Tops(g)
    requires forall i | 0 <= i < |entries| :: GoesThrough(above + [folder], entries[i].path)
    ensures AllDeep(entries, |above|) && AllDeep(entries, |above| + 1)
    ensures AddBelow(g, entries, |above|)
         == Follow(g, Cons(Label(folder, true), AddBelow(Nil, entries, |above| + 1), Nil))
  {
    hide RouteOf, Insert, AddBelow;
    var depth := |above|;
    forall i | 0 <= i < |entries|
      ensures depth + 1 < |RouteOf(entries[i].path)| && RouteOf(entries[i].path)[depth] == folder
    {
      assert GoesThrough(above + [folder], entries[i].path);
      assert RouteOf(entries[i].path)[depth] == RouteOf(entries[i].path)[..depth + 1][depth];
    }
    FirstMakesFolder(g, folder, entries, depth);
  }

  lemma {:induction false} LeafAlone(h: Node, above: seq<string>, g: Forest<Label>)
    requires RouteOf(h.path) == above + [h.path] && h.path !in Tops(g)
    ensures AllDeep([h], |above|) && AddBelow(g, [h], |above|) == Follow(g, Cons(Label(h.path, h.isfolder), Nil, Nil))
  {
    hide RouteOf;
    assert RouteOf(h.path)[|above|..] == [h.path];
    InsertBehind(g, Nil, [h.path], h.isfolder);
    FollowNil(g);
  }

  lemma {:induction false} SomeLeaf(f: Forest<Node>)
    requires f.Cons?
    ensures Leaves(f) != []
  {
    if f.kids.Cons? {
      SomeLeaf(f.kids);
    }
  }

  // ----- a bookmark is not in the way of another -----

  ghost function LeafSet(f: Forest<Node>): set<Node> {
    match f
    case Nil => {}
    case Cons(h, k, r) => (if k.Nil? then {h} else LeafSet(k)) + LeafSet(r)
  }

  lemma {:induction false} LeavesAreLeaves(f: Forest<Node>)
    requires Distinct(f)
    ensures LeafSet(f) <= Nodes(f) && NoRepeats(Leaves(f))
    ensures forall i | 0 <= i < |Leaves(f)| :: Leaves(f)[i] in LeafSet(f)
  {
    match f
    case Nil =>
    case Cons(h, k, r) =>
      LeavesAreLeaves(k);
      LeavesAreLeaves(r);
      NoRepeatsJoin(if k.Nil? then [h] else Leaves(k), Leaves(r));
  }

  lemma {:induction false} StationsInside(f: Forest<Node>, above: seq<string>, m: Node, i: nat)
    requires Placed(f, above) && m in Nodes(f) && |above| <= i < |RouteOf(m.path)|
    ensures exists n :: n in Nodes(f) && n.path == RouteOf(m.path)[i]
  {
    hide RouteOf;
    var Cons(h, k, r) := f;
    assert h in Nodes(f);
    if m in Nodes(k) {
      RouteStarts(k, above + [h.path], m);
      if i > |above| {
        StationsInside(k, above + [h.path], m, i);
        var n :| n in Nodes(k) && n.path == RouteOf(m.path)[i];
        assert n in Nodes(f);
      } else {
        assert RouteOf(m.path)[..|above| + 1][i] == h.path;
      }
    } else if m in Nodes(r) {
      StationsInside(r, above, m, i);
      var n :| n in Nodes(r) && n.path == RouteOf(m.path)[i];
      assert n in Nodes(f);
    }
  }

  lemma {:induction false} RouteStarts(f: Forest<Node>, above: seq<string>, m: Node)
    requires Placed(f, above) && m in Nodes(f)
    ensures GoesThrough(above, m.path)
  {
    hide RouteOf;
    var Cons(h, k, r) := f;
    if m in Nodes(k) {
      RouteStarts(k, above + [h.path], m);
      assert RouteOf(m.path)[..|above|] == RouteOf(m.path)[..|above| + 1][..|above|];
    } else if m in Nodes(r) {
      RouteStarts(r, above, m);
    }
  }

  // An entry without children is not on the way to any other entry.
  lemma {:induction false} OffTheRoute(f: Forest<Node>, above: seq<string>, leaf: Node, m: Node, i: nat)
    requires Placed(f, above) && Distinct(f) && UniquePaths(Nodes(f))
    requires leaf in LeafSet(f) && m in Nodes(f) && m != leaf && |above| <= i < |RouteOf(m.path)|
    ensures leaf.path != RouteOf(m.path)[i]
  {
    hide RouteOf;
    var Cons(h, k, r) := f;
    LeavesAreLeaves(f);
    LeavesAreLeaves(k);
    LeavesAreLeaves(r);
    assert h in Nodes(f);
    if m in Nodes(k) {
      RouteStarts(k, above + [h.path], m);
      if i == |above| {
        assert RouteOf(m.path)[..|above| + 1][i] == h.path;
      } else if leaf in LeafSet(k) {
        OffTheRoute(k, above + [h.path], leaf, m, i);
      } else {
        StationsInside(k, above + [h.path], m, i);
      }
    } else if m in Nodes(r) {
      if leaf in LeafSet(r) {
        OffTheRoute(r, above, leaf, m, i);
      } else {
        StationsInside(r, above, m, i);
      }
    }
  }

  lemma {:induction false} SpellingsAt(leaves: seq<Node>)
    ensures |Spellings(leaves)| == |leaves|
    ensures forall i | 0 <= i < |leaves| :: Spellings(leaves)[i] == Spelling(leaves[i])
  {
    hide Spelling;
    if leaves != [] {
      SpellingsAt(leaves[1..]);
    }
  }

  lemma SpellingNames(n: Node)
    requires Savable(n)
    ensures WellFormed(Spelling(n)) && Entry(Spelling(n)) == n.path
    ensures Spelling(n)[|Spelling(n)| - 1] == '/' <==> n.isfolder
  {
  }

  lemma BelowRoot(b: Bookmarks)
    requires b.Valid()
    ensures Placed(b.tree.kids, [""]) && Distinct(b.tree.kids) && UniquePaths(Nodes(b.tree.kids))
    ensures forall n | n in Nodes(b.tree.kids) :: n.path != ""
    ensures b.Content() == Cons(Label("", true), Shape(b.tree.kids), Nil)
  {
    PathsAreUnique(b.tree, b.htable);
    assert Shape(b.tree.rest) == Nil;
  }

  // Where an entry is one of its spelling, no earlier entry's route comes through it.
  lemma {:induction false} NotOnRoute(kids: Forest<Node>, leaves: seq<Node>, i: nat, j: nat)
    requires Placed(kids, [""]) && Distinct(kids) && UniquePaths(Nodes(kids)) && leaves == Leaves(kids)
    requires forall n | n in Nodes(kids) :: n.path != ""
    requires i < j < |leaves|
    ensures leaves[j].path !in RouteOf(leaves[i].path)
  {
    hide RouteOf, Leaves, LeafSet;
    LeavesAreLeaves(kids);
    var route := RouteOf(leaves[i].path);
    RouteStarts(kids, [""], leaves[i]);
    assert route[..1][0] == "";
    if leaves[j].path in route {
      var s :| 0 <= s < |route| && route[s] == leaves[j].path;
      OffTheRoute(kids, [""], leaves[j], leaves[i], s);
    }
  }

  lemma {:induction false} LeavesReadable(b: Bookmarks)
    requires b.Valid() && forall i | 0 <= i < |Leaves(b.tree.kids)| :: Savable(Leaves(b.tree.kids)[i])
    ensures Readable(Spellings(Leaves(b.tree.kids)))
  {
    BelowRoot(b);
    var leaves := Leaves(b.tree.kids);
    var paths := Spellings(leaves);
    SpellingsAt(leaves);
    hide Savable, Spelling, Entry, RouteOf, Shape, Leaves, Spellings, Placed, Distinct, Linked, Indexed;
    forall i | 0 <= i < |paths|
      ensures WellFormed(paths[i]) && Entry(paths[i]) == leaves[i].path
      ensures paths[i][|paths[i]| - 1] != '/' ==> paths[i] == leaves[i].path
    {
      SpellingNames(leaves[i]);
      BookmarkSpelling(leaves[i]);
    }
    forall i, j | 0 <= i < j < |paths| && paths[j][|paths[j]| - 1] != '/'
      ensures paths[j] !in RouteOf(Entry(paths[i]))
    {
      NotOnRoute(b.tree.kids, leaves, i, j);
    }
  }

  lemma BookmarkSpelling(n: Node)
    ensures !n.isfolder ==> Spelling(n) == n.path
  {
  }

  // ----- the file rebuilds the tree -----

  lemma {:induction false} InsertAllFront(f: Forest<Label>, path: string, paths: seq<string>)
    requires WellFormed(path) && forall i | 0 <= i < |paths| :: WellFormed(paths[i])
    ensures InsertAll(f, [path] + paths)
         == InsertAll(Insert(f, RouteOf(Entry(path)), path[|path| - 1] == '/'), paths)
    decreases |paths|
  {
    hide RouteOf, Insert, Entry;
    var all := [path] + paths;
    if paths == [] {
      assert all == [path] && all[..0] == [];
      assert InsertAll(f, []) == f;
    } else {
      var n := |paths| - 1;
      InsertAllFront(f, path, paths[..n]);
      assert all[..|all| - 1] == [path] + paths[..n] && all[|all| - 1] == paths[n];
    }
  }

  lemma {:induction false} InsertAllIsAddBelow(f: Forest<Label>, leaves: seq<Node>)
    requires forall i | 0 <= i < |leaves| :: Savable(leaves[i])
    requires AllDeep(leaves, 0)
    ensures |Spellings(leaves)| == |leaves|
    ensures forall i | 0 <= i < |leaves| :: WellFormed(Spellings(leaves)[i])
    ensures InsertAll(f, Spellings(leaves)) == AddBelow(f, leaves, 0)
    decreases |leaves|
  {
    hide RouteOf, Insert, Savable, Spelling, Entry;
    SpellingsAt(leaves);
    forall i | 0 <= i < |leaves|
      ensures WellFormed(Spellings(leaves)[i])
    {
      SpellingNames(leaves[i]);
    }
    if leaves != [] {
      SpellingNames(leaves[0]);
      var next := Insert(f, RouteOf(leaves[0].path), leaves[0].isfolder);
      InsertAllIsAddBelow(next, leaves[1..]);
      InsertAllFront(f, Spelling(leaves[0]), Spellings(leaves[1..]));
      assert RouteOf(leaves[0].path)[0..] == RouteOf(leaves[0].path);
    }
  }

  /**
   * The file written for a tree can be read, and makes the same tree again:
   * the same paths in the same places and order, with the same folders, except
   * that an entry with children is a folder afterwards. So the tree is the same
   * exactly if no bookmark was used as a folder.
   */
  lemma {:induction false} FileRebuildsTree(b: Bookmarks, comments: seq<string>, fields: string -> seq<string>)
    requires b.Valid() && forall i | 0 <= i < |Leaves(b.tree.kids)| :: Savable(Leaves(b.tree.kids)[i])
    requires forall i | 0 <= i < |comments| :: Plain(comments[i])
    requires forall path, j | 0 <= j < |fields(path)| :: Plain(fields(path)[j])
    ensures Readable(Sections(Chunks(Written(comments, fields, Leaves(b.tree.kids)))))
    ensures var paths := Sections(Chunks(Written(comments, fields, Leaves(b.tree.kids))));
            var again := InsertAll(Cons(Label("", true), Nil, Nil), paths);
            again == Mended(b.Content()) && (again == b.Content() <==> Foldered(b.Content()))
  {
    hide RouteOf, Insert, Savable, Spelling, Entry, Plain, Written, Chunks, Sections, AddBelow, Leaves;
    var kids := b.tree.kids;
    var leaves := Leaves(kids);
    BelowRoot(b);
    WrittenReads(comments, fields, leaves);
    LeavesReadable(b);
    LeavesBelow(kids, [""]);
    LeavesDeep(leaves, [""]);
    AllDeepEnough(leaves);
    InsertAllIsAddBelow(Cons(Label("", true), Nil, Nil), leaves);
    LeavesRebuild(kids, [""], Nil);
    AddInRoot(leaves);
    MendedIsSame(b.Content());
  }

  lemma AllDeepEnough(leaves: seq<Node>)
    ensures AllDeep(leaves, 0)
  {
  }

  lemma {:induction false} AddInRoot(leaves: seq<Node>)
    requires forall i | 0 <= i < |leaves| :: GoesThrough([""], leaves[i].path)
    ensures AllDeep(leaves, 0) && AllDeep(leaves, 1)
    ensures AddBelow(Cons(Label("", true), Nil, Nil), leaves, 0) == Cons(Label("", true), AddBelow(Nil, leaves, 1), Nil)
  {
    hide RouteOf, Insert, AddBelow;
    forall i | 0 <= i < |leaves|
      ensures 1 < |RouteOf(leaves[i].path)| && RouteOf(leaves[i].path)[0] == ""
    {
      assert GoesThrough([""], leaves[i].path);
      assert RouteOf(leaves[i].path)[..1][0] == "";
    }
    assert Follow(Nil, Cons(Label("", true), Nil, Nil)) == Cons(Label("", true), Nil, Nil);
    AddInFolder(Nil, "", Nil, leaves, 0);
  }
}
