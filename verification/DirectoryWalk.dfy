/**
 * The recursive directory walk: a list of files that grows while it is walked,
 * and the device and inode numbers that keep it from going round in circles.
 */
module DirectoryWalk {
  const FATAL := -2
  // A guint has 32 bits.
  const WORD := 0x1_0000_0000

  datatype Kind = Directory | Link | Other

  /** gftp_file, as far as the walk looks at it. */
  datatype FileInfo = FileInfo(name: string, dev: nat, ino: nat, kind: Kind, size: int)

  datatype Stat = Stat(code: int, isdir: bool, size: int)

  datatype Chdir = Chdir(code: int, dir: string)

  datatype Listing = Listing(code: int, files: seq<FileInfo>)

  /** What the other side answers. */
  datatype Remote = Remote(list: string -> Listing, stat: string -> Stat, chdir: string -> Chdir,
                           sizeOf: string -> int, connected: bool, build: (string, string) -> string)

  type Key = (nat, nat)

  /** Files with a zero number take no part in the detection of loops. */
  predicate Tracked(f: FileInfo) {
    f.dev != 0 && f.ino != 0
  }

  /** Both numbers are cut to a guint. */
  function KeyOf(f: FileInfo): Key {
    (f.dev % WORD, f.ino % WORD)
  }

  // ----- what a single file stands for -----

  function FullName(r: Remote, dir: string, name: string): string {
    if dir != "" && !(name != "" && name[0] == '/') then r.build(dir, name) else name
  }

  /** The files of a listing, without the directory itself and its parent. */
  function Kept(r: Remote, dir: string, files: seq<FileInfo>): seq<FileInfo> {
    if files == [] then []
    else
      var n := |files| - 1;
      var f := files[n];
      Kept(r, dir, files[..n]) +
      (if f.name == "." || f.name == ".." then [] else [f.(name := FullName(r, dir, f.name))])
  }

  /** The file under its full name: a relative name is completed with the directory. */
  predicate InFull(r: Remote, dir: string, f: FileInfo, g: FileInfo) {
    && g == f.(name := g.name)
    && g.name == if dir == "" || (f.name != "" && f.name[0] == '/') then f.name else r.build(dir, f.name)
  }

  /** The list has the files at these places of the listing, in this order, under their full names. */
  predicate ComesFrom(r: Remote, dir: string, files: seq<FileInfo>, list: seq<FileInfo>, at: seq<nat>) {
    |at| == |list| && forall i | 0 <= i < |at| :: at[i] < |files| && InFull(r, dir, files[at[i]], list[i])
  }

  /** The places of the files that are not named "." or "..", each once and in order. */
  ghost predicate PlacesOfOthers(files: seq<FileInfo>, at: seq<nat>) {
    && (forall i, j | 0 <= i < j < |at| :: at[i] < at[j])
    && forall k: nat :: k in at <==> k < |files| && files[k].name != "." && files[k].name != ".."
  }

  ghost predicate PickedAt(r: Remote, dir: string, files: seq<FileInfo>, list: seq<FileInfo>, at: seq<nat>) {
    PlacesOfOthers(files, at) && ComesFrom(r, dir, files, list, at)
  }

  ghost predicate Picked(r: Remote, dir: string, files: seq<FileInfo>, list: seq<FileInfo>) {
    exists at :: PickedAt(r, dir, files, list, at)
  }

  lemma OneMorePlace(files: seq<FileInfo>, at: seq<nat>)
    requires files != [] && PlacesOfOthers(files[..|files| - 1], at)
    ensures var n := |files| - 1;
            PlacesOfOthers(files, if files[n].name == "." || files[n].name == ".." then at else at + [n])
  {
    var n := |files| - 1;
    var more := if files[n].name == "." || files[n].name == ".." then at else at + [n];
    forall i, j | 0 <= i < j < |more|
      ensures more[i] < more[j]
    {
      assert more[i] == at[i] && at[i] in at;
    }
    forall k: nat
      ensures k in more <==> k < |files| && files[k].name != "." && files[k].name != ".."
    {
      assert k in more <==> k in at || (k == n && |more| > |at|);
      assert k < n ==> files[..n][k] == files[k];
    }
  }

  lemma OneMoreFile(r: Remote, dir: string, files: seq<FileInfo>, list: seq<FileInfo>, at: seq<nat>)
    requires files != [] && ComesFrom(r, dir, files[..|files| - 1], list, at)
    ensures ComesFrom(r, dir, files, list, at)
    ensures var n := |files| - 1;
            ComesFrom(r, dir, files, list + [files[n].(name := FullName(r, dir, files[n].name))], at + [n])
  {
    var n := |files| - 1;
    var full := files[n].(name := FullName(r, dir, files[n].name));
    assert InFull(r, dir, files[n], full);
    hide InFull, FullName;
    assert forall i | 0 <= i < |at| :: files[..n][at[i]] == files[at[i]];
  }

  /** The files that are kept are those that are not the directory itself or its parent, in order and with full names. */
  lemma {:induction false} KeptIsPicked(r: Remote, dir: string, files: seq<FileInfo>) returns (at: seq<nat>)
    ensures PickedAt(r, dir, files, Kept(r, dir, files), at)
  {
    hide PlacesOfOthers, ComesFrom;
    if files == [] {
      at := [];
      NothingPicked(r, dir);
    } else {
      var n := |files| - 1;
      at := KeptIsPicked(r, dir, files[..n]);
      OneMorePlace(files, at);
      OneMoreFile(r, dir, files, Kept(r, dir, files[..n]), at);
      if files[n].name != "." && files[n].name != ".." {
        at := at + [n];
      } else {
        assert Kept(r, dir, files[..n]) + [] == Kept(r, dir, files[..n]);
      }
    }
  }

  lemma NothingPicked(r: Remote, dir: string)
    ensures PickedAt(r, dir, [], [], [])
  {
  }

  /** What is found inside a directory. */
  function Inside(r: Remote, name: string): seq<FileInfo> {
    var dir := r.chdir(name).dir;
    if r.list(dir).code < 0 then [] else Kept(r, dir, r.list(dir).files)
  }

  /** The file after a symbolic link was looked up. */
  function Resolved(r: Remote, f: FileInfo): FileInfo {
    if f.kind != Link then f
    else
      var s := r.stat(f.name);
      if s.code != 0 then f else if s.isdir then f.(kind := Directory) else f.(size := s.size)
  }

  predicate IsDir(r: Remote, f: FileInfo) {
    Resolved(r, f).kind == Directory
  }

  /** What is selected, with full names and with sizes where they were missing. */
  function Prepared(r: Remote, dir: string, f: FileInfo): FileInfo {
    f.(name := FullName(r, dir, f.name), size := if f.size < 0 && r.connected then r.sizeOf(f.name) else f.size)
  }

  // ----- what the walk makes of the list -----

  function Seen(listed: seq<FileInfo>, n: nat): set<Key>
    requires n <= |listed|
  {
    if n == 0 then {} else Seen(listed, n - 1) + (if Tracked(listed[n - 1]) then {KeyOf(listed[n - 1])} else {})
  }

  /** The file is not one that was there before. */
  predicate New(listed: seq<FileInfo>, i: nat)
    requires i < |listed|
  {
    Tracked(listed[i]) ==> KeyOf(listed[i]) !in Seen(listed, i)
  }

  /** What the directories among the first `n` files add: each its files, if it is new. */
  function Expansions(r: Remote, listed: seq<FileInfo>, n: nat): seq<FileInfo>
    requires n <= |listed|
  {
    if n == 0 then []
    else
      Expansions(r, listed, n - 1) +
      (if New(listed, n - 1) && IsDir(r, listed[n - 1]) then Inside(r, listed[n - 1].name) else [])
  }

  function Dirs(r: Remote, listed: seq<FileInfo>, n: nat): nat
    requires n <= |listed|
  {
    if n == 0 then 0
    else Dirs(r, listed, n - 1) + (if New(listed, n - 1) && IsDir(r, listed[n - 1]) then 1 else 0)
  }

  function Others(r: Remote, listed: seq<FileInfo>, n: nat): nat
    requires n <= |listed|
  {
    if n == 0 then 0
    else Others(r, listed, n - 1) + (if New(listed, n - 1) && !IsDir(r, listed[n - 1]) then 1 else 0)
  }

  /**
   * The list is what was selected and then, in order, what is inside each new
   * directory of the list; and what is inside a directory comes after it.
   */
  ghost predicate Walked(r: Remote, selected: seq<FileInfo>, listed: seq<FileInfo>, n: nat) {
    n <= |listed| && listed == selected + Expansions(r, listed, n) &&
    forall i | 0 <= i < n :: i < |selected| + |Expansions(r, listed, i)|
  }

  lemma {:induction false} PrefixDecides(r: Remote, listed: seq<FileInfo>, more: seq<FileInfo>, n: nat)
    requires n <= |listed|
    ensures Seen(listed + more, n) == Seen(listed, n)
    ensures Expansions(r, listed + more, n) == Expansions(r, listed, n)
    ensures Dirs(r, listed + more, n) == Dirs(r, listed, n) && Others(r, listed + more, n) == Others(r, listed, n)
    ensures n < |listed| ==> New(listed + more, n) == New(listed, n)
  {
    if n > 0 {
      PrefixDecides(r, listed, more, n - 1);
    }
  }

  // One more file of the list was dealt with.
  lemma WalkedOneMore(r: Remote, selected: seq<FileInfo>, listed: seq<FileInfo>, i: nat, more: seq<FileInfo>)
    requires Walked(r, selected, listed, i) && i < |listed|
    requires more == if New(listed, i) && IsDir(r, listed[i]) then Inside(r, listed[i].name) else []
    ensures Walked(r, selected, listed + more, i + 1)
  {
    PrefixDecides(r, listed, more, i);
    forall k | 0 <= k < i
      ensures k < |selected| + |Expansions(r, listed + more, k)|
    {
      PrefixDecides(r, listed, more, k);
    }
  }

  lemma NothingWalked(r: Remote, selected: seq<FileInfo>)
    ensures Walked(r, selected, selected, 0) && Holds(map[], {})
  {
  }

  function Selected(r: Remote, dir: string, files: seq<FileInfo>): seq<FileInfo> {
    seq(|files|, i requires 0 <= i < |files| => Prepared(r, dir, files[i]))
  }

  // ----- why it ends -----

  ghost function AllKeys(): set<Key> {
    set d: nat, i: nat | d < WORD && i < WORD :: (d, i)
  }

  ghost function Weight(f: FileInfo, work: string -> nat): nat {
    if Tracked(f) then 1 else work(f.name)
  }

  ghost function Weights(files: seq<FileInfo>, work: string -> nat): nat {
    if files == [] then 0 else Weight(files[0], work) + Weights(files[1..], work)
  }

  /**
   * Without the numbers nothing keeps the walk from going down for ever: `work`
   * bounds how much there is below a file that has none. Below a file with
   * numbers it may go round in circles.
   */
  ghost predicate Settles(r: Remote, work: string -> nat) {
    forall name :: work(name) > Weights(Inside(r, name), work)
  }

  lemma {:induction false} WeightsJoin(a: seq<FileInfo>, b: seq<FileInfo>, work: string -> nat)
    ensures Weights(a + b, work) == Weights(a, work) + Weights(b, work)
  {
    if a == [] {
      assert a + b == b;
    } else {
      WeightsJoin(a[1..], b, work);
      assert (a + b)[1..] == a[1..] + b;
    }
  }

  // Either there is a new key, or less work is left.
  lemma LessLeft(r: Remote, listed: seq<FileInfo>, i: nat, more: seq<FileInfo>, work: string -> nat)
    requires Settles(r, work) && i < |listed|
    requires more == if New(listed, i) && IsDir(r, listed[i]) then Inside(r, listed[i].name) else []
    ensures AllKeys() - Seen(listed + more, i + 1) < AllKeys() - Seen(listed, i) ||
            (AllKeys() - Seen(listed + more, i + 1) == AllKeys() - Seen(listed, i) &&
             Weights((listed + more)[i + 1..], work) < Weights(listed[i..], work))
  {
    PrefixDecides(r, listed, more, i);
    var f := listed[i];
    assert (listed + more)[i] == f;
    assert (listed + more)[i + 1..] == listed[i + 1..] + more;
    WeightsJoin(listed[i + 1..], more, work);
    assert listed[i..][0] == f && listed[i..][1..] == listed[i + 1..];
    assert work(f.name) > Weights(Inside(r, f.name), work);
    if Tracked(f) && New(listed, i) {
      assert KeyOf(f) in AllKeys() && KeyOf(f) !in Seen(listed, i);
      assert KeyOf(f) in Seen(listed + more, i + 1);
    }
  }

  // ----- the hash of device hashes -----

  type DeviceHash = map<nat, set<nat>>

  predicate InHash(hash: DeviceHash, key: Key) {
    key.0 in hash && key.1 in hash[key.0]
  }

  ghost predicate Holds(hash: DeviceHash, keys: set<Key>) {
    forall d: nat, i: nat :: InHash(hash, (d, i)) <==> (d, i) in keys
  }

  /** _lookup_curfle_in_device_hash */
  method LookupFile(f: FileInfo, hash: DeviceHash, ghost keys: set<Key>) returns (found: bool, grown: DeviceHash)
    requires Holds(hash, keys)
    ensures found <==> Tracked(f) && KeyOf(f) in keys
    ensures found <==> f.dev != 0 && f.ino != 0 && (f.dev % 0x1_0000_0000, f.ino % 0x1_0000_0000) in keys
    ensures Holds(grown, keys + (if Tracked(f) then {KeyOf(f)} else {}))
  {
    if f.dev == 0 || f.ino == 0 {
      return false, hash;
    }
    var dev, ino := f.dev % WORD, f.ino % WORD;
    assert InHash(hash, (dev, ino)) <==> (dev, ino) in keys;
    if dev in hash {
      if ino in hash[dev] {
        return true, hash;
      }
      grown := hash[dev := hash[dev] + {ino}];
    } else {
      grown := hash[dev := {ino}];
    }
    found := false;
    forall d: nat, i: nat
      ensures InHash(grown, (d, i)) <==> (d, i) in keys + {(dev, ino)}
    {
      assert InHash(hash, (d, i)) <==> (d, i) in keys;
    }
  }

  // ----- the walk -----

  /** Every size that is asked for can be had. */
  predicate SizesKnown(r: Remote, files: seq<FileInfo>) {
    forall i | 0 <= i < |files| :: files[i].size < 0 && r.connected ==> r.sizeOf(files[i].name) != FATAL
  }

  /** Looking up a link ends in a fatal error, or a directory cannot be entered or listed. */
  predicate Troubled(r: Remote, f: FileInfo) {
    || (f.kind == Link && r.stat(f.name).code == FATAL)
    || (IsDir(r, f) && (r.chdir(f.name).code < 0 || r.list(r.chdir(f.name).dir).code < 0))
  }

  /** None of the first `n` files that is new makes trouble. */
  predicate Untroubled(r: Remote, listed: seq<FileInfo>, n: nat) {
    n <= |listed| && forall k | 0 <= k < n :: New(listed, k) ==> !Troubled(r, listed[k])
  }

  lemma OneMoreUntroubled(r: Remote, listed: seq<FileInfo>, more: seq<FileInfo>, i: nat)
    requires i < |listed| && Untroubled(r, listed, i)
    requires New(listed, i) ==> !Troubled(r, listed[i])
    ensures Untroubled(r, listed + more, i + 1)
  {
    hide Troubled;
    forall k | 0 <= k <= i
      ensures New(listed + more, k) == New(listed, k)
    {
      PrefixSeen(listed, more, k);
    }
  }

  /** gftp_transfer, as far as the walk uses it; there is no destination. */
  class Transfer {
    var files: seq<FileInfo>
    var numfiles: int
    var numdirs: int
    // The current directory of the other side.
    var fromdir: string
    // The files as they were when they entered the list.
    ghost var listed: seq<FileInfo>

    constructor (files: seq<FileInfo>, fromdir: string)
      ensures this.files == files && this.fromdir == fromdir && numfiles == 0 && numdirs == 0
    {
      this.files, this.fromdir := files, fromdir;
      numfiles, numdirs, listed := 0, 0, files;
    }

    /** _setup_current_directory_transfer */
    method Setup(r: Remote) returns (ret: int)
      requires files != []
      modifies this`files
      ensures ret == 0 || ret == FATAL
      ensures |files| == |old(files)|
      ensures ret == 0 ==> forall i | 0 <= i < |files| :: files[i] == Prepared(r, fromdir, old(files)[i])
      ensures ret == 0 ==> forall i | 0 <= i < |files| ::
                var f := old(files)[i];
                InFull(r, fromdir, f.(size := if f.size >= 0 || !r.connected then f.size else r.sizeOf(f.name)), files[i])
      ensures ret == 0 <==> SizesKnown(r, old(files))
    {
      var i := 0;
      while true
        invariant i < |files| == |old(files)|
        invariant forall k | 0 <= k < i :: files[k] == Prepared(r, fromdir, old(files)[k])
        invariant forall k | i <= k < |files| :: files[k] == old(files)[k]
        invariant SizesKnown(r, old(files)[..i])
        decreases |files| - i
      {
        var curfle := files[i];
        if curfle.size < 0 && r.connected {
          var size := r.sizeOf(curfle.name);
          files := files[i := curfle.(size := size)];
          if size == FATAL {
            return FATAL;
          }
        }
        if fromdir != "" && !(curfle.name != "" && curfle.name[0] == '/') {
          files := files[i := files[i].(name := r.build(fromdir, curfle.name))];
        }
        if i == |files| - 1 {
          break;
        }
        i := i + 1;
      }
      ret := 0;
    }

    /** gftp_get_dir_listing, for the current directory. */
    method GetDirListing(r: Remote) returns (ret: int, list: seq<FileInfo>)
      ensures ret == r.list(fromdir).code && list == if ret < 0 then [] else Kept(r, fromdir, r.list(fromdir).files)
      ensures ret >= 0 ==> Picked(r, fromdir, r.list(fromdir).files, list)
    {
      var listing := r.list(fromdir);
      ret, list := listing.code, [];
      if ret < 0 {
        return;
      }
      var n := 0;
      while n < |listing.files|
        invariant n <= |listing.files| && list == Kept(r, fromdir, listing.files[..n])
      {
        var fle := listing.files[n];
        assert listing.files[..n + 1][..n] == listing.files[..n];
        n := n + 1;
        if fle.name == "." || fle.name == ".." {
          continue;
        }
        if fromdir != "" && !(fle.name != "" && fle.name[0] == '/') {
          fle := fle.(name := r.build(fromdir, fle.name));
        }
        list := list + [fle];
      }
      assert listing.files[..n] == listing.files;
      ghost var at := KeptIsPicked(r, fromdir, listing.files);
      assert Picked(r, fromdir, listing.files, list);
    }

    /** The links among the first `n` files were looked up where that was due. */
    ghost predicate UpToDate(r: Remote, n: nat)
      reads this
    {
      |files| == |listed| &&
      forall k | 0 <= k < |files| ::
        files[k] == if k < n && New(listed, k) then Resolved(r, listed[k]) else listed[k]
    }

    // The symbolic link may be one to a directory.
    method FollowLink(r: Remote, i: nat) returns (ret: int)
      requires i < |files|
      modifies this`files
      ensures ret == FATAL <==> old(files)[i].kind == Link && r.stat(old(files)[i].name).code == FATAL
      ensures ret != FATAL ==> files == old(files)[i := Resolved(r, old(files)[i])]
      // What is no link, or cannot be looked up, stays as it is; a link to a directory becomes one, and any other gets its size.
      ensures ret != FATAL ==>
                var was, s := old(files)[i], r.stat(old(files)[i].name);
                && |files| == |old(files)| && (forall k | 0 <= k < |files| && k != i :: files[k] == old(files)[k])
                && (was.kind != Link || s.code != 0 ==> files[i] == was)
                && (was.kind == Link && s.code == 0 ==>
                      files[i] == FileInfo(was.name, was.dev, was.ino, if s.isdir then Directory else Link, if s.isdir then was.size else s.size))
    {
      ret := 0;
      var curfle := files[i];
      if curfle.kind == Link {
        var stat := r.stat(curfle.name);
        ret := stat.code;
        if ret == 0 {
          if stat.isdir {
            files := files[i := curfle.(kind := Directory)];
          } else {
            files := files[i := curfle.(size := stat.size)];
          }
        }
      }
    }

    // A directory: goes there, and adds what is inside to the end of the list.
    method Descend(r: Remote, i: nat) returns (ret: int)
      requires i < |files| == |listed|
      modifies this
      ensures numdirs == old(numdirs) + 1 && numfiles == old(numfiles)
      ensures var name := old(files)[i].name;
              && (ret < 0 <==> r.chdir(name).code < 0 || r.list(r.chdir(name).dir).code < 0)
              && if ret < 0 then listed == old(listed)
                 else files == old(files) + Inside(r, name) && listed == old(listed) + Inside(r, name)
      // It is gone to, and listed there.
      ensures ret >= 0 ==>
                && fromdir == r.chdir(old(files)[i].name).dir && old(files) <= files
                && Picked(r, fromdir, r.list(fromdir).files, files[|old(files)|..])
    {
      numdirs := numdirs + 1;
      var chdir := r.chdir(files[i].name);
      if chdir.code < 0 {
        return chdir.code;
      }
      fromdir := chdir.dir;
      var list;
      ret, list := GetDirListing(r);
      if ret < 0 {
        return;
      }
      files := files + list;
      listed := listed + list;
      ret := 0;
    }

    // One round of the loop.
    method Visit(r: Remote, i: nat, hash: DeviceHash, ghost selected: seq<FileInfo>) returns (ret: int, grown: DeviceHash)
      requires i < |files| && UpToDate(r, i) && Walked(r, selected, listed, i) && Holds(hash, Seen(listed, i))
      modifies this
      ensures ret < 0 <==> New(old(listed), i) && Troubled(r, old(listed)[i])
      ensures ret < 0 ==> listed == old(listed)
      ensures ret >= 0 ==>
        var was := old(listed);
        listed == was + (if New(was, i) && IsDir(r, was[i]) then Inside(r, was[i].name) else []) &&
        UpToDate(r, i + 1) && Walked(r, selected, listed, i + 1) && Holds(grown, Seen(listed, i + 1)) &&
        numdirs == old(numdirs) + (if New(was, i) && IsDir(r, was[i]) then 1 else 0) &&
        numfiles == old(numfiles) + (if New(was, i) && !IsDir(r, was[i]) then 1 else 0) &&
        (fromdir == old(fromdir) || (New(was, i) && IsDir(r, was[i])))
    {
      hide Walked, Holds, Inside, FullName;
      ghost var was := listed;
      assert files[i] == was[i];
      var found;
      found, grown := LookupFile(files[i], hash, Seen(listed, i));
      ghost var more := if New(was, i) && IsDir(r, was[i]) then Inside(r, was[i].name) else [];
      WalkedOneMore(r, selected, was, i, more);
      OneMoreSeen(was, more, i);
      ret := 0;
      if !found {
        ret := FollowLink(r, i);
        if ret == FATAL {
          return;
        }
        ret := 0;
        if files[i].kind != Directory {
          numfiles := numfiles + 1;
        } else {
          ret := Descend(r, i);
        }
      }
      if ret >= 0 {
        assert listed == was + more;
        StillUpToDate(was, more);
      }
    }

    /**
     * gftp_get_all_subdirs. On success the list is what was selected and what is
     * inside every new directory of it, each looked into once, and the counts
     * are those of the new directories and of the other new files.
     */
    method GetAllSubdirs(r: Remote, ghost work: string -> nat) returns (ret: int)
      requires Settles(r, work)
      modifies this
      ensures old(files) == [] ==> ret == FATAL && files == []
      ensures ret <= 0
      // It fails exactly for an error of the other side where that is asked.
      ensures ret == 0 <==>
                && old(files) != [] && SizesKnown(r, old(files)) && Untroubled(r, listed, |listed|)
                && (Dirs(r, listed, |listed|) > 0 ==> r.chdir(old(fromdir)).code != FATAL)
      ensures ret == 0 ==>
        Walked(r, Selected(r, old(fromdir), old(files)), listed, |listed|) && UpToDate(r, |listed|) &&
        numdirs == old(numdirs) + Dirs(r, listed, |listed|) && numfiles == old(numfiles) + Others(r, listed, |listed|)
      ensures ret == 0 && Dirs(r, listed, |listed|) == 0 ==> fromdir == old(fromdir)
      ensures ret == 0 && Dirs(r, listed, |listed|) > 0 && r.chdir(old(fromdir)).code >= 0 ==>
        fromdir == r.chdir(old(fromdir)).dir
    {
      if files == [] {
        return FATAL;
      }
      ret := Setup(r);
      if ret != 0 {
        return;
      }
      hide Walked, Untroubled, SizesKnown, Settles, New, IsDir, Inside, UpToDate, Dirs, Others;
      listed := files;
      assert files == Selected(r, old(fromdir), old(files));
      var oldfromdir, dirs := fromdir, numdirs;
      ret := WalkList(r, work);
      if ret < 0 {
        return;
      }
      if numdirs > dirs {
        var chdir := r.chdir(oldfromdir);
        if chdir.code >= 0 {
          fromdir := chdir.dir;
        }
        if chdir.code == FATAL {
          return FATAL;
        }
      }
      ret := 0;
    }

    // The loop over the growing list.
    method WalkList(r: Remote, ghost work: string -> nat) returns (ret: int)
      requires Settles(r, work) && listed == files
      modifies this
      ensures ret >= 0 <==> Untroubled(r, listed, |listed|)
      ensures ret >= 0 ==>
        Walked(r, old(files), listed, |listed|) && UpToDate(r, |listed|) &&
        numdirs == old(numdirs) + Dirs(r, listed, |listed|) && numfiles == old(numfiles) + Others(r, listed, |listed|) &&
        (Dirs(r, listed, |listed|) == 0 ==> fromdir == old(fromdir))
    {
      hide Walked, Holds, Troubled, AllKeys, Settles, New, IsDir, Inside, Weights;
      ghost var selected := files;
      var hash: DeviceHash := map[];
      var i := 0;
      ret := 0;
      NothingWalked(r, selected);
      while i < |files|
        invariant i <= |files| && UpToDate(r, i) && Walked(r, selected, listed, i) && Holds(hash, Seen(listed, i))
        invariant numdirs == old(numdirs) + Dirs(r, listed, i) && numfiles == old(numfiles) + Others(r, listed, i)
        invariant Dirs(r, listed, i) == 0 ==> fromdir == old(fromdir)
        invariant ret >= 0 && Untroubled(r, listed, i)
        decreases AllKeys() - Seen(listed, i), Weights(listed[i..], work)
      {
        ghost var was := listed;
        ghost var more := if New(was, i) && IsDir(r, was[i]) then Inside(r, was[i].name) else [];
        LessLeft(r, was, i, more, work);
        PrefixDecides(r, was, more, i);
        ret, hash := Visit(r, i, hash, selected);
        if ret < 0 {
          assert !Untroubled(r, listed, |listed|);
          return;
        }
        OneMoreUntroubled(r, was, more, i);
        i := i + 1;
      }
    }

    lemma StillUpToDate(was: seq<FileInfo>, more: seq<FileInfo>)
      ensures forall k | 0 <= k < |was| :: New(was + more, k) == New(was, k)
    {
      forall k | 0 <= k < |was|
        ensures New(was + more, k) == New(was, k)
      {
        PrefixSeen(was, more, k);
      }
    }
  }

  lemma {:induction false} PrefixSeen(listed: seq<FileInfo>, more: seq<FileInfo>, n: nat)
    requires n <= |listed|
    ensures Seen(listed + more, n) == Seen(listed, n)
  {
    if n > 0 {
      PrefixSeen(listed, more, n - 1);
    }
  }

  lemma OneMoreSeen(listed: seq<FileInfo>, more: seq<FileInfo>, i: nat)
    requires i < |listed|
    ensures Seen(listed + more, i + 1) == Seen(listed, i) + (if Tracked(listed[i]) then {KeyOf(listed[i])} else {})
  {
    PrefixSeen(listed, more, i);
  }

  // ----- what is counted -----

  type Id = (nat, nat)

  function IdOf(f: FileInfo): Id {
    (f.dev, f.ino)
  }

  function Cut(id: Id): Key {
    (id.0 % WORD, id.1 % WORD)
  }

  function Ids(files: seq<FileInfo>): set<Id> {
    set f | f in files :: IdOf(f)
  }

  /** No two of the ids are the same after they were cut to 32 bits. */
  ghost predicate CutApart(ids: set<Id>) {
    forall a, b | a in ids && b in ids :: Cut(a) == Cut(b) ==> a == b
  }

  ghost predicate AllTracked(files: seq<FileInfo>) {
    forall i | 0 <= i < |files| :: Tracked(files[i])
  }

  lemma {:induction false} CountsAreKeys(r: Remote, listed: seq<FileInfo>, n: nat)
    requires AllTracked(listed) && n <= |listed|
    ensures Dirs(r, listed, n) + Others(r, listed, n) == |Seen(listed, n)|
  {
    if n > 0 {
      CountsAreKeys(r, listed, n - 1);
      var key := KeyOf(listed[n - 1]);
      if key in Seen(listed, n - 1) {
        assert Seen(listed, n) == Seen(listed, n - 1);
      } else {
        assert Seen(listed, n) == Seen(listed, n - 1) + {key};
      }
    }
  }

  lemma {:induction false} SeenIsCut(listed: seq<FileInfo>, n: nat)
    requires AllTracked(listed) && n <= |listed|
    ensures Seen(listed, n) == set id | id in Ids(listed[..n]) :: Cut(id)
  {
    if n > 0 {
      SeenIsCut(listed, n - 1);
      var f := listed[n - 1];
      assert listed[..n] == listed[..n - 1] + [f];
      assert Ids(listed[..n]) == Ids(listed[..n - 1]) + {IdOf(f)};
      assert KeyOf(f) == Cut(IdOf(f));
      var cut := set id | id in Ids(listed[..n]) :: Cut(id);
      assert cut == (set id | id in Ids(listed[..n - 1]) :: Cut(id)) + {Cut(IdOf(f))};
    }
  }

  lemma {:induction false} CutSize(ids: set<Id>)
    ensures var cut := set id | id in ids :: Cut(id); |cut| <= |ids| && (|cut| == |ids| <==> CutApart(ids))
    decreases ids
  {
    var cut := set id | id in ids :: Cut(id);
    if ids == {} {
      assert cut == {};
    } else {
      hide Cut;
      var a :| a in ids;
      var rest := ids - {a};
      var cutRest := set id | id in rest :: Cut(id);
      CutSize(rest);
      assert ids == rest + {a};
      assert cut == cutRest + {Cut(a)};
      if Cut(a) in cutRest {
        var b :| b in rest && Cut(b) == Cut(a);
        assert cut == cutRest && !CutApart(ids);
      } else {
        assert |cut| == |cutRest| + 1;
        forall b | b in rest
          ensures Cut(b) != Cut(a)
        {
          assert Cut(b) in cutRest;
        }
        assert CutApart(ids) <==> CutApart(rest);
      }
    }
  }

  /**
   * The two counts add up to the number of different files, as told by device
   * and inode, exactly if no two of these files look the same in 32 bits.
   */
  lemma CountsAreFiles(r: Remote, listed: seq<FileInfo>)
    requires AllTracked(listed)
    ensures Dirs(r, listed, |listed|) + Others(r, listed, |listed|) <= |Ids(listed)|
    ensures Dirs(r, listed, |listed|) + Others(r, listed, |listed|) == |Ids(listed)| <==> CutApart(Ids(listed))
  {
    CountsAreKeys(r, listed, |listed|);
    SeenIsCut(listed, |listed|);
    assert listed[..|listed|] == listed;
    CutSize(Ids(listed));
  }

  // Numbers of up to 32 bits are not changed by the cut.
  lemma SmallNumbersApart(ids: set<Id>)
    requires forall id | id in ids :: id.0 < WORD && id.1 < WORD
    ensures CutApart(ids)
  {
    forall a, b | a in ids && b in ids && Cut(a) == Cut(b)
      ensures a == b
    {
      assert a.0 % WORD == a.0 && a.1 % WORD == a.1 && b.0 % WORD == b.0 && b.1 % WORD == b.1;
    }
  }

  /** A directory that is looked into was not looked into before, under any name. */
  lemma LookedIntoOnce(listed: seq<FileInfo>, i: nat, j: nat)
    requires i < j < |listed| && Tracked(listed[i]) && Tracked(listed[j]) && New(listed, j)
    ensures IdOf(listed[i]) != IdOf(listed[j])
  {
    SeenBefore(listed, i, j);
  }

  /** But a file that only looks like an earlier one is skipped too: not counted, and not looked into. */
  lemma LookalikeIsSkipped(listed: seq<FileInfo>, i: nat, j: nat)
    requires i < j < |listed| && Tracked(listed[i]) && Tracked(listed[j])
    requires Cut(IdOf(listed[i])) == Cut(IdOf(listed[j]))
    ensures !New(listed, j)
  {
    SeenBefore(listed, i, j);
  }

  lemma {:induction false} SeenBefore(listed: seq<FileInfo>, i: nat, n: nat)
    requires i < n <= |listed| && Tracked(listed[i])
    ensures KeyOf(listed[i]) in Seen(listed, n)
  {
    if i < n - 1 {
      SeenBefore(listed, i, n - 1);
    }
  }

  // ----- what is reached -----

  /** The files behind the names: which are directories, and what is in them. */
  datatype Graph = Graph(isdir: Id -> bool, inside: Id -> set<Id>, at: string -> Id)

  ghost function DirsOf(g: Graph, ids: set<Id>): set<Id> {
    set id | id in ids && g.isdir(id)
  }

  /** The file is what its name stands for in the graph. */
  ghost predicate Shown(r: Remote, g: Graph, f: FileInfo) {
    Tracked(f) && IdOf(f) == g.at(f.name) && (IsDir(r, f) <==> g.isdir(IdOf(f)))
  }

  /** The other side shows every directory of the graph as it is. */
  ghost predicate Faithful(r: Remote, g: Graph) {
    forall name | g.isdir(g.at(name)) ::
      Ids(Inside(r, name)) == g.inside(g.at(name)) &&
      forall i | 0 <= i < |Inside(r, name)| :: Shown(r, g, Inside(r, name)[i])
  }

  ghost predicate Closed(g: Graph, ids: set<Id>) {
    forall id | id in ids && g.isdir(id) :: g.inside(id) <= ids
  }

  /** The smallest closed set around the start: what can be reached from there. */
  ghost predicate Reached(g: Graph, start: set<Id>, ids: set<Id>) {
    start <= ids && Closed(g, ids) && forall more: set<Id> | start <= more && Closed(g, more) :: ids <= more
  }

  // A file of the list was selected, or is inside a directory that comes before it.
  lemma {:induction false} WhereFrom(r: Remote, start: nat, listed: seq<FileInfo>, n: nat, e: nat) returns (k: nat)
    requires n <= |listed| && e < |Expansions(r, listed, n)|
    requires forall i | 0 <= i < n :: i < start + |Expansions(r, listed, i)|
    ensures k < n && k < start + e && New(listed, k) && IsDir(r, listed[k])
    ensures Expansions(r, listed, n)[e] in Inside(r, listed[k].name)
  {
    hide New, IsDir, Inside;
    var before := Expansions(r, listed, n - 1);
    if e < |before| {
      k := WhereFrom(r, start, listed, n - 1, e);
    } else {
      k := n - 1;
      assert Expansions(r, listed, n) == before + Inside(r, listed[k].name);
      assert Expansions(r, listed, n)[e] == Inside(r, listed[k].name)[e - |before|];
    }
  }

  lemma {:induction false} AllShown(r: Remote, g: Graph, selected: seq<FileInfo>, listed: seq<FileInfo>, m: nat)
    requires Walked(r, selected, listed, |listed|) && Faithful(r, g) && m < |listed|
    requires forall i | 0 <= i < |selected| :: Shown(r, g, selected[i])
    ensures Shown(r, g, listed[m])
  {
    if m >= |selected| {
      var k := WhereFrom(r, |selected|, listed, |listed|, m - |selected|);
      AllShown(r, g, selected, listed, k);
      assert g.isdir(g.at(listed[k].name));
      var i :| 0 <= i < |Inside(r, listed[k].name)| && Inside(r, listed[k].name)[i] == listed[m];
    }
  }

  lemma {:induction false} InsideIsListed(r: Remote, listed: seq<FileInfo>, n: nat, k: nat)
    requires k < n <= |listed| && New(listed, k) && IsDir(r, listed[k])
    ensures forall f | f in Inside(r, listed[k].name) :: f in Expansions(r, listed, n)
  {
    hide New, IsDir, Inside;
    var before := Expansions(r, listed, n - 1);
    if k < n - 1 {
      InsideIsListed(r, listed, n - 1, k);
      assert forall f | f in before :: f in Expansions(r, listed, n);
    } else {
      assert Expansions(r, listed, n) == before + Inside(r, listed[k].name);
    }
  }

  // The first file of the list with the same key is a new one.
  lemma {:induction false} FirstWithKey(listed: seq<FileInfo>, n: nat, key: Key) returns (k: nat)
    requires n <= |listed| && key in Seen(listed, n)
    ensures k < n && Tracked(listed[k]) && KeyOf(listed[k]) == key && New(listed, k)
  {
    if key in Seen(listed, n - 1) {
      k := FirstWithKey(listed, n - 1, key);
    } else {
      k := n - 1;
    }
  }

  /**
   * A file is new if it cannot be told apart, having no numbers, or if no file
   * before it that can be told apart has the same two numbers in 32 bits.
   */
  lemma {:induction false} NewIsFirst(listed: seq<FileInfo>, i: nat)
    requires i < |listed|
    ensures var f := listed[i];
            New(listed, i) <==>
            (f.dev != 0 && f.ino != 0 ==>
              forall j | 0 <= j < i && listed[j].dev != 0 && listed[j].ino != 0 ::
                listed[j].dev % 0x1_0000_0000 != f.dev % 0x1_0000_0000 || listed[j].ino % 0x1_0000_0000 != f.ino % 0x1_0000_0000)
  {
    forall j | 0 <= j < i && Tracked(listed[j])
      ensures KeyOf(listed[j]) in Seen(listed, i)
    {
      SeenBefore(listed, j, i);
    }
    if !New(listed, i) {
      var k := FirstWithKey(listed, i, KeyOf(listed[i]));
    }
  }

  lemma ListIsClosed(r: Remote, g: Graph, selected: seq<FileInfo>, listed: seq<FileInfo>)
    requires Walked(r, selected, listed, |listed|) && Faithful(r, g)
    requires forall i | 0 <= i < |selected| :: Shown(r, g, selected[i])
    requires CutApart(Ids(listed))
    ensures Closed(g, Ids(listed))
  {
    hide Walked, Faithful, Expansions, Inside;
    forall id | id in Ids(listed) && g.isdir(id)
      ensures g.inside(id) <= Ids(listed)
    {
      var m :| 0 <= m < |listed| && IdOf(listed[m]) == id;
      AllShown(r, g, selected, listed, m);
      SeenBefore(listed, m, |listed|);
      var k := FirstWithKey(listed, |listed|, KeyOf(listed[m]));
      AllShown(r, g, selected, listed, k);
      assert IdOf(listed[k]) in Ids(listed) && Cut(IdOf(listed[k])) == Cut(id);
      FoundInside(r, g, selected, listed, k);
    }
  }

  // Of the files that are what their names stand for, the new directories are counted once each.
  lemma {:induction false} DirsAreCounted(r: Remote, g: Graph, listed: seq<FileInfo>, n: nat)
    requires n <= |listed| && AllTracked(listed) && CutApart(Ids(listed))
    requires forall i | 0 <= i < |listed| :: IsDir(r, listed[i]) <==> g.isdir(IdOf(listed[i]))
    ensures Dirs(r, listed, n) == |DirsOf(g, Ids(listed[..n]))|
  {
    hide IsDir, New, Ids, AllTracked, CutApart;
    if n == 0 {
      assert Ids(listed[..0]) == {} by {
        NoIds(listed[..0]);
      }
      assert DirsOf(g, {}) == {};
    } else {
      DirsAreCounted(r, g, listed, n - 1);
      var id, before := IdOf(listed[n - 1]), Ids(listed[..n - 1]);
      NewIsAnotherId(listed, n - 1);
      OneMoreId(listed, n - 1);
      assert DirsOf(g, before + {id}) == DirsOf(g, before) + (if g.isdir(id) then {id} else {});
    }
  }

  lemma NoIds(files: seq<FileInfo>)
    requires files == []
    ensures Ids(files) == {}
  {
  }

  lemma OneMoreId(listed: seq<FileInfo>, n: nat)
    requires n < |listed|
    ensures Ids(listed[..n + 1]) == Ids(listed[..n]) + {IdOf(listed[n])}
  {
    assert listed[..n + 1] == listed[..n] + [listed[n]];
  }

  lemma NewIsAnotherId(listed: seq<FileInfo>, i: nat)
    requires i < |listed| && AllTracked(listed) && CutApart(Ids(listed))
    ensures New(listed, i) <==> IdOf(listed[i]) !in Ids(listed[..i])
  {
    var id := IdOf(listed[i]);
    SeenIsCut(listed, i);
    assert KeyOf(listed[i]) == Cut(id);
    if Cut(id) in Seen(listed, i) {
      var other :| other in Ids(listed[..i]) && Cut(other) == Cut(id);
      assert other in Ids(listed) && id in Ids(listed);
    }
  }

  lemma FoundInside(r: Remote, g: Graph, selected: seq<FileInfo>, listed: seq<FileInfo>, k: nat)
    requires Walked(r, selected, listed, |listed|) && Faithful(r, g) && k < |listed|
    requires New(listed, k) && Shown(r, g, listed[k]) && g.isdir(IdOf(listed[k]))
    ensures g.inside(IdOf(listed[k])) <= Ids(listed)
  {
    InsideIsListed(r, listed, |listed|, k);
    var name := listed[k].name;
    assert g.isdir(g.at(name));
    assert Ids(Inside(r, name)) == g.inside(IdOf(listed[k]));
    forall id | id in Ids(Inside(r, name))
      ensures id in Ids(listed)
    {
      var f :| f in Inside(r, name) && IdOf(f) == id;
      assert f in listed;
    }
  }

  lemma {:induction false} InEveryClosedSet(r: Remote, g: Graph, selected: seq<FileInfo>, listed: seq<FileInfo>,
                                            m: nat, more: set<Id>)
    requires Walked(r, selected, listed, |listed|) && Faithful(r, g) && m < |listed|
    requires forall i | 0 <= i < |selected| :: Shown(r, g, selected[i])
    requires Ids(selected) <= more && Closed(g, more)
    ensures IdOf(listed[m]) in more
  {
    if m < |selected| {
      assert listed[m] in selected;
      assert IdOf(listed[m]) in Ids(selected);
    } else {
      var k := WhereFrom(r, |selected|, listed, |listed|, m - |selected|);
      InEveryClosedSet(r, g, selected, listed, k, more);
      AllShown(r, g, selected, listed, k);
      var name := listed[k].name;
      assert g.isdir(g.at(name));
      assert IdOf(listed[m]) in Ids(Inside(r, name));
    }
  }

  /**
   * On any graph of files, with cycles and with several names for one file, the
   * list ends with exactly the files that can be reached from the selection, and
   * the counts are those of the directories and of the others among them; as long
   * as the numbers of the files that there are (`all`) stay apart when they are
   * cut to 32 bits.
   */
  lemma {:induction false} WalkReachesAll(r: Remote, g: Graph, all: set<Id>, selected: seq<FileInfo>, listed: seq<FileInfo>)
    requires Faithful(r, g) && Closed(g, all) && CutApart(all)
    requires Ids(selected) <= all && forall i | 0 <= i < |selected| :: Shown(r, g, selected[i])
    requires Walked(r, selected, listed, |listed|)
    ensures Reached(g, Ids(selected), Ids(listed))
    ensures Dirs(r, listed, |listed|) + Others(r, listed, |listed|) == |Ids(listed)|
    ensures Dirs(r, listed, |listed|) == |DirsOf(g, Ids(listed))|
  {
    assert CutApart(Ids(listed)) by {
      forall id | id in Ids(listed)
        ensures id in all
      {
        var m :| 0 <= m < |listed| && IdOf(listed[m]) == id;
        InEveryClosedSet(r, g, selected, listed, m, all);
      }
    }
    ListIsClosed(r, g, selected, listed);
    forall more: set<Id> | Ids(selected) <= more && Closed(g, more)
      ensures Ids(listed) <= more
    {
      forall id | id in Ids(listed)
        ensures id in more
      {
        var m :| 0 <= m < |listed| && IdOf(listed[m]) == id;
        InEveryClosedSet(r, g, selected, listed, m, more);
      }
    }
    forall i | 0 <= i < |listed|
      ensures Tracked(listed[i]) && (IsDir(r, listed[i]) <==> g.isdir(IdOf(listed[i])))
    {
      AllShown(r, g, selected, listed, i);
    }
    CountsAreFiles(r, listed);
    DirsAreCounted(r, g, listed, |listed|);
    assert listed[..|listed|] == listed;
    assert Ids(selected) <= Ids(listed) by {
      forall f | f in selected
        ensures f in listed
      {
        assert f in selected + Expansions(r, listed, |listed|);
      }
    }
  }

  /** So it is whenever the numbers have at most 32 bits in the first place. */
  lemma SmallNumbersReachAll(r: Remote, g: Graph, all: set<Id>, selected: seq<FileInfo>, listed: seq<FileInfo>)
    requires Faithful(r, g) && Closed(g, all) && forall id | id in all :: id.0 < WORD && id.1 < WORD
    requires Ids(selected) <= all && forall i | 0 <= i < |selected| :: Shown(r, g, selected[i])
    requires Walked(r, selected, listed, |listed|)
    ensures Reached(g, Ids(selected), Ids(listed))
    ensures Dirs(r, listed, |listed|) + Others(r, listed, |listed|) == |Ids(listed)|
    ensures Dirs(r, listed, |listed|) == |DirsOf(g, Ids(listed))|
  {
    SmallNumbersApart(all);
    WalkReachesAll(r, g, all, selected, listed);
  }
}
