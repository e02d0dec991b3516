/**
 * `src/app/playlist.rs`: building the playlist from the music folder.
 * The file system is a pre-built tree standing for what `walkdir` would
 * reach from the music folder (symbolic links already followed or not, as
 * `follow_symlinks` asks; entries that fail to read are simply absent).
 */
module Playlist {
  import opened Wrappers
  import opened RustStr
  import opened Paths
  import opened Config

  /** A file-system node: a regular file, a directory, or anything else (a link not followed, a socket, ...). */
  datatype FsNode =
    | File(name: string)
    | Dir(name: string, children: seq<FsNode>)
    | Special(name: string)

  datatype FileType = RegularFile | Directory | OtherType

  /** What `walkdir` yields for one node: its full path, its file name and its type. */
  datatype DirEntry = DirEntry(path: Path, fileName: string, fileType: FileType)

  /** A playlist item: a path relative to the music folder. */
  datatype Item = Item(path: Path)

  function TypeOf(n: FsNode): FileType {
    match n
    case File(_) => RegularFile
    case Dir(_, _) => Directory
    case Special(_) => OtherType
  }

  /** `is_hidden`: the entry's file name starts with a dot. */
  predicate IsHidden(e: DirEntry)
    ensures IsHidden(e) <==> |e.fileName| > 0 && e.fileName[0] == '.'
  {
    StartsWith(e.fileName, ".")
  }

  /**
   * `WalkDir::new(path).filter_entry(..)`, depth first: the node itself,
   * then the walks of its children in order. With `skipHidden` a hidden
   * node is neither yielded nor entered; the test applies to the starting
   * node too.
   */
  function Walk(n: FsNode, path: Path, skipHidden: bool): (r: seq<DirEntry>)
    ensures r == [] <==> skipHidden && StartsWith(n.name, ".")
    ensures r != [] ==> r[0] == DirEntry(path, n.name, TypeOf(n))
    ensures |r| <= Size(n)
    decreases n, 1
  {
    var entry := DirEntry(path, n.name, TypeOf(n));
    if skipHidden && IsHidden(entry) then []
    else [entry] + (if n.Dir? then WalkChildren(n.children, path, skipHidden) else [])
  }

  function WalkChildren(cs: seq<FsNode>, parent: Path, skipHidden: bool): (r: seq<DirEntry>)
    ensures |r| <= SizeChildren(cs)
    decreases cs, 0
  {
    if cs == [] then []
    else Walk(cs[0], parent + [Normal(cs[0].name)], skipHidden) + WalkChildren(cs[1..], parent, skipHidden)
  }

  /** Number of nodes in a tree. */
  function Size(n: FsNode): nat
    decreases n, 1
  {
    if n.Dir? then 1 + SizeChildren(n.children) else 1
  }

  function SizeChildren(cs: seq<FsNode>): nat
    decreases cs, 0
  {
    if cs == [] then 0 else Size(cs[0]) + SizeChildren(cs[1..])
  }

  /** The fixed, case-sensitive list of extensions that never enter the playlist. */
  const SkippedExts: seq<string> := ["jpg", "png", "txt"]

  /** The entries `read_songs` adds: regular files whose extension is not a skipped one. */
  predicate Keeps(e: DirEntry)
    ensures Keeps(e) <==> e.fileType == RegularFile && forall x :: x in SkippedExts ==> Extension(e.path) != Some(x)
  {
    e.fileType == RegularFile && !(Extension(e.path).Some? && Extension(e.path).value in SkippedExts)
  }

  /** The items `read_songs` pushes for a list of walk entries, in walk order, before sorting. */
  function SongsOf(entries: seq<DirEntry>, root: Path): (r: seq<Item>)
    requires forall i :: 0 <= i < |entries| ==> root <= entries[i].path
    ensures |r| <= |entries|
    ensures forall k :: 0 <= k < |r| ==>
      exists i :: 0 <= i < |entries| && Keeps(entries[i]) && entries[i].path == root + r[k].path
  {
    if entries == [] then []
    else
      var last := entries[|entries| - 1];
      SongsOf(entries[..|entries| - 1], root)
      + (if Keeps(last) then [Item(StripPrefix(last.path, root).value)] else [])
  }

  /** The unsorted songs of the tree `n` found at `root`. */
  function Songs(n: FsNode, root: Path, skipHidden: bool): seq<Item> {
    WalkUnderRoot(n, root, skipHidden);
    SongsOf(Walk(n, root, skipHidden), root)
  }

  // ---------------------------------------------------------------------------
  // Walk properties

  /** Every entry of a walk lies below its starting path (so `strip_prefix(..).unwrap()` cannot fail). */
  lemma {:induction false} WalkUnderRoot(n: FsNode, path: Path, skipHidden: bool)
    ensures forall i :: 0 <= i < |Walk(n, path, skipHidden)| ==> path <= Walk(n, path, skipHidden)[i].path
    decreases n, 1
  {
    if n.Dir? {
      WalkChildrenUnder(n.children, path, skipHidden);
    }
  }

  lemma {:induction false} WalkChildrenUnder(cs: seq<FsNode>, parent: Path, skipHidden: bool)
    ensures forall i :: 0 <= i < |WalkChildren(cs, parent, skipHidden)| ==>
      parent <= WalkChildren(cs, parent, skipHidden)[i].path
    decreases cs, 0
  {
    if cs != [] {
      var p := parent + [Normal(cs[0].name)];
      WalkUnderRoot(cs[0], p, skipHidden);
      WalkChildrenUnder(cs[1..], parent, skipHidden);
      var w := Walk(cs[0], p, skipHidden);
      forall i | 0 <= i < |w| ensures parent <= w[i].path {
        assert parent <= p;
      }
    }
  }

  /** No component below `root` of `path` is a dot-name. */
  predicate NoHiddenBelow(path: Path, root: nat) {
    forall k :: root <= k < |path| ==> path[k].Normal? && !StartsWith(path[k].name, ".")
  }

  /**
   * With `skipHidden`, no yielded entry is hidden and none lies inside a
   * hidden directory: every component below the starting path is a
   * non-hidden name, however large the pruned subtrees are.
   */
  lemma {:induction false} WalkPrunesHidden(n: FsNode, path: Path)
    ensures forall i :: 0 <= i < |Walk(n, path, true)| ==>
      !IsHidden(Walk(n, path, true)[i]) && |path| <= |Walk(n, path, true)[i].path|
      && NoHiddenBelow(Walk(n, path, true)[i].path, |path|)
    decreases n, 1
  {
    WalkUnderRoot(n, path, true);
    if n.Dir? {
      WalkChildrenPruneHidden(n.children, path);
    }
  }

  lemma {:induction false} WalkChildrenPruneHidden(cs: seq<FsNode>, parent: Path)
    ensures forall i :: 0 <= i < |WalkChildren(cs, parent, true)| ==>
      !IsHidden(WalkChildren(cs, parent, true)[i]) && |parent| <= |WalkChildren(cs, parent, true)[i].path|
      && NoHiddenBelow(WalkChildren(cs, parent, true)[i].path, |parent|)
    decreases cs, 0
  {
    if cs != [] {
      var p := parent + [Normal(cs[0].name)];
      WalkPrunesHidden(cs[0], p);
      WalkUnderRoot(cs[0], p, true);
      WalkChildrenPruneHidden(cs[1..], parent);
      var w := Walk(cs[0], p, true);
      if w != [] {
        assert !StartsWith(cs[0].name, ".");
        forall i | 0 <= i < |w| ensures NoHiddenBelow(w[i].path, |parent|) {
          assert p <= w[i].path;
          assert w[i].path[|parent|] == Normal(cs[0].name);
        }
      }
    }
  }

  /** Without `skipHidden` nothing is pruned: the walk yields one entry per node. */
  lemma {:induction false} WalkVisitsEveryNode(n: FsNode, path: Path)
    ensures |Walk(n, path, false)| == Size(n)
    ensures forall ix :: Follow(n, path, ix).Some? ==> EntryOf(Follow(n, path, ix).value) in Walk(n, path, false)
    decreases n, 1
  {
    forall ix | Follow(n, path, ix).Some?
      ensures EntryOf(Follow(n, path, ix).value) in Walk(n, path, false)
    {
      WalkComplete(n, path, false, ix, EntryOf(Follow(n, path, ix).value));
    }
    if n.Dir? {
      WalkChildrenVisitEveryNode(n.children, path);
    }
  }

  lemma {:induction false} WalkChildrenVisitEveryNode(cs: seq<FsNode>, parent: Path)
    ensures |WalkChildren(cs, parent, false)| == SizeChildren(cs)
    decreases cs, 0
  {
    if cs != [] {
      WalkVisitsEveryNode(cs[0], parent + [Normal(cs[0].name)]);
      WalkChildrenVisitEveryNode(cs[1..], parent);
    }
  }

  /** A node reached from the starting node, with its entry path and whether no name on the way has a leading dot. */
  datatype Reached = Reached(node: FsNode, path: Path, visible: bool)

  /**
   * Follows the child positions `ix` down from `n`, whose entry path is
   * `path`. The visibility flag covers every node on the way, `n` and the
   * reached node included. Positions rather than names, so that a tree
   * with repeated sibling names is handled too.
   */
  function Follow(n: FsNode, path: Path, ix: seq<nat>): (r: Option<Reached>)
    ensures r.Some? && r.value.visible ==> !StartsWith(n.name, ".")
    ensures r.Some? ==> path <= r.value.path && |r.value.path| == |path| + |ix|
    decreases |ix|
  {
    var visible := !StartsWith(n.name, ".");
    if ix == [] then Some(Reached(n, path, visible))
    else if n.Dir? && ix[0] < |n.children| then
      var c := n.children[ix[0]];
      match Follow(c, path + [Normal(c.name)], ix[1..])
      case None => None
      case Some(t) => Some(t.(visible := t.visible && visible))
    else None
  }

  /** The entry `walkdir` would report for a reached node. */
  function EntryOf(t: Reached): DirEntry {
    DirEntry(t.path, t.node.name, TypeOf(t.node))
  }

  /** The node at positions `ix` exists, `e` is its entry, and with `skipHidden` nothing on the way is hidden. */
  predicate Yields(n: FsNode, path: Path, skipHidden: bool, ix: seq<nat>, e: DirEntry) {
    var f := Follow(n, path, ix);
    f.Some? && e == EntryOf(f.value) && (skipHidden ==> f.value.visible)
  }

  /** The children's walk holds exactly the entries of the walks of the single children. */
  lemma {:induction false} WalkChildrenMembers(cs: seq<FsNode>, parent: Path, skipHidden: bool, e: DirEntry)
    ensures e in WalkChildren(cs, parent, skipHidden) <==>
      exists k :: 0 <= k < |cs| && e in Walk(cs[k], parent + [Normal(cs[k].name)], skipHidden)
  {
    if cs != [] {
      WalkChildrenMembers(cs[1..], parent, skipHidden, e);
      if exists k :: 0 <= k < |cs| && e in Walk(cs[k], parent + [Normal(cs[k].name)], skipHidden) {
        var k :| 0 <= k < |cs| && e in Walk(cs[k], parent + [Normal(cs[k].name)], skipHidden);
        if k > 0 {
          assert cs[1..][k - 1] == cs[k];
        }
      }
      if e in WalkChildren(cs[1..], parent, skipHidden) {
        var k :| 0 <= k < |cs[1..]| && e in Walk(cs[1..][k], parent + [Normal(cs[1..][k].name)], skipHidden);
        assert cs[k + 1] == cs[1..][k];
      }
    }
  }

  /** Whatever the walk yields is a reachable node, outside hidden subtrees when pruning. */
  lemma {:induction false} WalkSound(n: FsNode, path: Path, skipHidden: bool, e: DirEntry)
    requires e in Walk(n, path, skipHidden)
    ensures exists ix :: Yields(n, path, skipHidden, ix, e)
    decreases n
  {
    if e == DirEntry(path, n.name, TypeOf(n)) {
      assert Yields(n, path, skipHidden, [], e);
    } else {
      assert n.Dir? && e in WalkChildren(n.children, path, skipHidden);
      WalkChildrenMembers(n.children, path, skipHidden, e);
      var k :| 0 <= k < |n.children| && e in Walk(n.children[k], path + [Normal(n.children[k].name)], skipHidden);
      var c := n.children[k];
      WalkSound(c, path + [Normal(c.name)], skipHidden, e);
      var ix :| Yields(c, path + [Normal(c.name)], skipHidden, ix, e);
      YieldsThroughChild(n, path, skipHidden, k, ix, e);
    }
  }

  /** A node yielded below child `k` is yielded from its parent, provided the parent is not pruned. */
  lemma YieldsThroughChild(n: FsNode, path: Path, skipHidden: bool, k: nat, ix: seq<nat>, e: DirEntry)
    requires n.Dir? && k < |n.children|
    requires skipHidden ==> !StartsWith(n.name, ".")
    requires Yields(n.children[k], path + [Normal(n.children[k].name)], skipHidden, ix, e)
    ensures Yields(n, path, skipHidden, [k] + ix, e)
  {
    assert ([k] + ix)[1..] == ix;
  }

  /** Every reachable node outside hidden subtrees (any node, without pruning) is yielded. */
  lemma {:induction false} WalkComplete(n: FsNode, path: Path, skipHidden: bool, ix: seq<nat>, e: DirEntry)
    requires Yields(n, path, skipHidden, ix, e)
    ensures e in Walk(n, path, skipHidden)
    decreases |ix|
  {
    if ix != [] {
      var c := n.children[ix[0]];
      WalkComplete(c, path + [Normal(c.name)], skipHidden, ix[1..], e);
      WalkChildrenMembers(n.children, path, skipHidden, e);
    }
  }

  /**
   * The walk yields exactly the entries of the nodes reachable from the
   * start, leaving out, when pruning, every node with a hidden name on its
   * way from the start (itself included).
   */
  lemma WalkMembers(n: FsNode, path: Path, skipHidden: bool, e: DirEntry)
    ensures e in Walk(n, path, skipHidden) <==> exists ix :: Yields(n, path, skipHidden, ix, e)
  {
    if e in Walk(n, path, skipHidden) {
      WalkSound(n, path, skipHidden, e);
    }
    if exists ix :: Yields(n, path, skipHidden, ix, e) {
      var ix :| Yields(n, path, skipHidden, ix, e);
      WalkComplete(n, path, skipHidden, ix, e);
    }
  }

  /** A child with a visible name, inside a directory with a visible name, is walked even when pruning. */
  lemma VisibleChildWalked(n: FsNode, path: Path, k: nat)
    requires n.Dir? && k < |n.children|
    requires !StartsWith(n.name, ".") && !StartsWith(n.children[k].name, ".")
    ensures var c := n.children[k];
      DirEntry(path + [Normal(c.name)], c.name, TypeOf(c)) in Walk(n, path, true)
  {
    var c := n.children[k];
    assert [k][1..] == [];
    WalkComplete(n, path, true, [k], DirEntry(path + [Normal(c.name)], c.name, TypeOf(c)));
  }

  /**
   * An item is among the songs exactly when some walk entry is a kept
   * regular file whose path is the root followed by the item's path.
   */
  lemma {:induction false} SongsOfMembers(entries: seq<DirEntry>, root: Path, it: Item)
    requires forall i :: 0 <= i < |entries| ==> root <= entries[i].path
    ensures it in SongsOf(entries, root) <==>
      exists i :: 0 <= i < |entries| && Keeps(entries[i]) && entries[i].path == root + it.path
  {
    if entries != [] {
      var init := entries[..|entries| - 1];
      var last := entries[|entries| - 1];
      assert entries == init + [last];
      SongsOfSnoc(init, last, root);
      SongsOfMembers(init, root, it);
      if exists i :: 0 <= i < |entries| && Keeps(entries[i]) && entries[i].path == root + it.path {
        var i :| 0 <= i < |entries| && Keeps(entries[i]) && entries[i].path == root + it.path;
        if i < |entries| - 1 {
          assert init[i] == entries[i];
        } else {
          assert StripPrefix(last.path, root).value == it.path;
        }
      }
      if it in SongsOf(entries, root) && it !in SongsOf(init, root) {
        assert Keeps(last) && it == Item(StripPrefix(last.path, root).value);
        assert entries[|entries| - 1].path == root + it.path;
      }
      if it in SongsOf(init, root) {
        var i :| 0 <= i < |init| && Keeps(init[i]) && init[i].path == root + it.path;
        assert entries[i] == init[i];
      }
    }
  }

  /** With `skipHidden`, no song has a dot-name anywhere in its relative path. */
  lemma SongsAvoidHidden(n: FsNode, root: Path, it: Item)
    requires it in Songs(n, root, true)
    ensures forall k :: 0 <= k < |it.path| ==> it.path[k].Normal? && !StartsWith(it.path[k].name, ".")
  {
    var entries := Walk(n, root, true);
    WalkUnderRoot(n, root, true);
    WalkPrunesHidden(n, root);
    SongsOfMembers(entries, root, it);
    var i :| 0 <= i < |entries| && Keeps(entries[i]) && entries[i].path == root + it.path;
    forall k | 0 <= k < |it.path|
      ensures it.path[k].Normal? && !StartsWith(it.path[k].name, ".")
    {
      assert it.path[k] == entries[i].path[|root| + k];
    }
  }

  /**
   * A regular file named `base.ext` is kept exactly when `ext` is not one of
   * the skipped extensions, compared case-sensitively: `cover.JPG` stays.
   */
  lemma RegularFileKeptIffExtNotSkipped(dir: Path, base: string, ext: string)
    requires |base| > 0 && base + "." + ext != ".."
    requires forall j :: 0 <= j < |ext| ==> ext[j] != '.'
    ensures Keeps(DirEntry(dir + [Normal(base + "." + ext)], base + "." + ext, RegularFile))
      <==> ext !in SkippedExts
  {
    NameExtensionOf(base, ext);
    assert FileName(dir + [Normal(base + "." + ext)]) == Some(base + "." + ext);
  }

  /** A regular file whose name has no dot after its first character is always kept. */
  lemma FileWithoutExtensionKept(dir: Path, name: string)
    requires forall k :: 0 < k < |name| ==> name[k] != '.'
    ensures Keeps(DirEntry(dir + [Normal(name)], name, RegularFile))
  {
    assert FileName(dir + [Normal(name)]) == Some(name);
  }

  /** The walk of the example folder: the folder, then its three files in order. */
  lemma ExampleWalk(root: Path)
    ensures Walk(Dir("music", [File("cover.jpg"), File("notes.txt"), File("track.flac")]), root, false)
      == [DirEntry(root, "music", Directory),
          DirEntry(root + [Normal("cover.jpg")], "cover.jpg", RegularFile),
          DirEntry(root + [Normal("notes.txt")], "notes.txt", RegularFile),
          DirEntry(root + [Normal("track.flac")], "track.flac", RegularFile)]
  {
    var cs := [File("cover.jpg"), File("notes.txt"), File("track.flac")];
    assert cs[1..][1..] == [File("track.flac")];
    assert cs[1..][1..][1..] == [];
  }

  /** A regular file `base.ext` is skipped when `ext` is one of the skipped extensions. */
  lemma SkippedFile(dir: Path, base: string, ext: string)
    requires |base| > 0 && base + "." + ext != ".." && ext in SkippedExts
    requires forall j :: 0 <= j < |ext| ==> ext[j] != '.'
    ensures !Keeps(DirEntry(dir + [Normal(base + "." + ext)], base + "." + ext, RegularFile))
  {
    RegularFileKeptIffExtNotSkipped(dir, base, ext);
  }

  /** The picture and the text file of the example folder are skipped. */
  lemma ExampleSkipped(root: Path, name: string)
    requires name == "cover.jpg" || name == "notes.txt"
    ensures !Keeps(DirEntry(root + [Normal(name)], name, RegularFile))
  {
    if name == "cover.jpg" {
      assert name == "cover" + "." + "jpg";
      SkippedFile(root, "cover", "jpg");
    } else {
      assert name == "notes" + "." + "txt";
      SkippedFile(root, "notes", "txt");
    }
  }

  lemma ExampleTrackKept(root: Path)
    ensures Keeps(DirEntry(root + [Normal("track.flac")], "track.flac", RegularFile))
  {
    assert "track.flac" == "track" + "." + "flac";
    RegularFileKeptIffExtNotSkipped(root, "track", "flac");
  }

  /** Entries none of which is kept give no songs. */
  lemma {:induction false} NothingKeptNoSongs(entries: seq<DirEntry>, root: Path)
    requires forall i :: 0 <= i < |entries| ==> root <= entries[i].path && !Keeps(entries[i])
    ensures SongsOf(entries, root) == []
  {
    if entries != [] {
      NothingKeptNoSongs(entries[..|entries| - 1], root);
    }
  }

  /** One more walk entry adds its song, if it is kept, after the songs so far. */
  lemma SongsOfSnoc(init: seq<DirEntry>, last: DirEntry, root: Path)
    requires forall i :: 0 <= i < |init| ==> root <= init[i].path
    requires root <= last.path
    ensures SongsOf(init + [last], root)
      == SongsOf(init, root) + (if Keeps(last) then [Item(StripPrefix(last.path, root).value)] else [])
  {
    var all := init + [last];
    assert all[..|all| - 1] == init && all[|all| - 1] == last;
  }

  /** The songs of one more entry of a walk, as the loop of `read_songs` pushes them. */
  lemma SongsOfStep(entries: seq<DirEntry>, i: nat, root: Path)
    requires forall k :: 0 <= k < |entries| ==> root <= entries[k].path
    requires i < |entries|
    ensures SongsOf(entries[..i + 1], root)
      == SongsOf(entries[..i], root) + (if Keeps(entries[i]) then [Item(StripPrefix(entries[i].path, root).value)] else [])
  {
    assert entries[..i + 1] == entries[..i] + [entries[i]];
    SongsOfSnoc(entries[..i], entries[i], root);
  }

  /** Entries of which only the last is kept give exactly that entry's song. */
  lemma OnlyLastKept(init: seq<DirEntry>, last: DirEntry, root: Path)
    requires forall i :: 0 <= i < |init| ==> root <= init[i].path && !Keeps(init[i])
    requires root <= last.path && Keeps(last)
    ensures SongsOf(init + [last], root) == [Item(StripPrefix(last.path, root).value)]
  {
    NothingKeptNoSongs(init, root);
    SongsOfSnoc(init, last, root);
  }

  /** A folder holding `cover.jpg`, `notes.txt` and `track.flac`, found at any path, yields only `track.flac`. */
  lemma ExampleSongs(root: Path)
    ensures Songs(Dir("music", [File("cover.jpg"), File("notes.txt"), File("track.flac")]), root, false)
      == [Item([Normal("track.flac")])]
  {
    var init := [DirEntry(root, "music", Directory),
                 DirEntry(root + [Normal("cover.jpg")], "cover.jpg", RegularFile),
                 DirEntry(root + [Normal("notes.txt")], "notes.txt", RegularFile)];
    var last := DirEntry(root + [Normal("track.flac")], "track.flac", RegularFile);
    forall k | 0 <= k < |init|
      ensures root <= init[k].path && !Keeps(init[k])
    {
      if k == 1 {
        ExampleSkipped(root, "cover.jpg");
      } else if k == 2 {
        ExampleSkipped(root, "notes.txt");
      }
    }
    ExampleTrackKept(root);
    OnlyLastKept(init, last, root);
    assert StripPrefix(last.path, root).value == [Normal("track.flac")];
    ExampleWalk(root);
    assert Walk(Dir("music", [File("cover.jpg"), File("notes.txt"), File("track.flac")]), root, false)
      == init + [last];
  }

  /** The same folder as `/music`. */
  lemma SkippedExtsExample()
    ensures Songs(Dir("music", [File("cover.jpg"), File("notes.txt"), File("track.flac")]), [RootDir, Normal("music")], false)
      == [Item([Normal("track.flac")])]
  {
    ExampleSongs([RootDir, Normal("music")]);
  }

  // ---------------------------------------------------------------------------
  // Sorting

  /** Ascending in the order of `Path`. */
  predicate Sorted(s: seq<Item>) {
    forall i, j :: 0 <= i < j < |s| ==> PathLe(s[i].path, s[j].path)
  }

  /** A smallest element put in front keeps a sorted sequence sorted. */
  lemma PrependSmallest(x: Item, s: seq<Item>)
    requires Sorted(s) && s != [] && PathLe(x.path, s[0].path)
    ensures Sorted([x] + s)
  {
    forall i, j | 0 <= i < j < |[x] + s| ensures PathLe(([x] + s)[i].path, ([x] + s)[j].path) {
      if i == 0 && j > 1 {
        PathLeTransitive(x.path, s[0].path, s[j - 1].path);
      }
    }
  }

  /** The head of `s` stays in front of `x` and the rest of `s`, sorted. */
  lemma KeepHead(s: seq<Item>, x: Item, rest: seq<Item>)
    requires Sorted(s) && s != [] && PathLe(s[0].path, x.path)
    requires Sorted(rest) && multiset(rest) == multiset(s[1..]) + multiset{x}
    ensures Sorted([s[0]] + rest)
  {
    forall j | 0 <= j < |rest| ensures PathLe(s[0].path, rest[j].path) {
      assert rest[j] in multiset(rest);
      if rest[j] != x {
        assert rest[j] in multiset(s[1..]);
        var k :| 0 <= k < |s[1..]| && s[1..][k] == rest[j];
        assert s[k + 1] == rest[j];
      }
    }
  }

  /** Puts `x` into the sorted `s` before the first element it does not follow. */
  function Insert(s: seq<Item>, x: Item): (r: seq<Item>)
    requires Sorted(s)
    ensures Sorted(r) && multiset(r) == multiset(s) + multiset{x}
  {
    if s == [] then [x]
    else if PathLe(x.path, s[0].path) then
      PrependSmallest(x, s);
      [x] + s
    else
      var rest := Insert(s[1..], x);
      PathLeTotal(x.path, s[0].path);
      KeepHead(s, x, rest);
      assert s == [s[0]] + s[1..];
      [s[0]] + rest
  }

  /** Insertion sort: the order `read_songs` and `sort` establish. */
  function SortItems(s: seq<Item>): (r: seq<Item>)
    ensures Sorted(r) && multiset(r) == multiset(s)
  {
    if s == [] then []
    else
      assert s == s[..|s| - 1] + [s[|s| - 1]];
      Insert(SortItems(s[..|s| - 1]), s[|s| - 1])
  }

  /** Two sorted arrangements of the same non-empty collection start alike. */
  lemma SameHead(a: seq<Item>, b: seq<Item>)
    requires Sorted(a) && Sorted(b) && multiset(a) == multiset(b) && a != []
    ensures b != [] && a[0] == b[0]
  {
    assert a[0] in multiset(b);
    var k :| 0 <= k < |b| && b[k] == a[0];
    assert b[0] in multiset(a);
    var m :| 0 <= m < |a| && a[m] == b[0];
    if k > 0 && m > 0 {
      assert PathLe(b[0].path, b[k].path) && PathLe(a[0].path, a[m].path);
      PathLeAntisymmetric(a[0].path, b[0].path);
    }
  }

  /**
   * There is only one sorted arrangement of a collection of items, so the
   * playlist does not depend on the sorting algorithm, the walk order or
   * the items held before.
   */
  lemma {:induction false} SortedPermutationUnique(a: seq<Item>, b: seq<Item>)
    requires Sorted(a) && Sorted(b) && multiset(a) == multiset(b)
    ensures a == b
    decreases |a|
  {
    if a == [] {
      assert |multiset(b)| == 0;
    } else {
      SameHead(a, b);
      assert a == [a[0]] + a[1..];
      assert b == [b[0]] + b[1..];
      assert multiset(a) == multiset{a[0]} + multiset(a[1..]);
      assert multiset(b) == multiset{a[0]} + multiset(b[1..]);
      assert multiset(a[1..]) == multiset(a) - multiset{a[0]};
      assert multiset(b[1..]) == multiset(b) - multiset{a[0]};
      SortedPermutationUnique(a[1..], b[1..]);
    }
  }

  // ---------------------------------------------------------------------------
  // The playlist

  class Playlist {
    var items: seq<Item>

    /** `Playlist::default()`. */
    constructor ()
      ensures items == []
    {
      items := [];
    }

    /** `Playlist::len`. */
    function Len(): (n: nat)
      reads this
      ensures n == |items|
    {
      |items|
    }

    /** `Playlist::get`: the item at `idx`, when there is one. */
    function Get(idx: nat): (r: Option<Item>)
      reads this
      ensures r.Some? <==> idx < Len()
      ensures r.Some? ==> r.value == items[idx]
    {
      if idx < |items| then Some(items[idx]) else None
    }

    /** `Playlist::sort`: sorts the items in place by path. */
    method Sort()
      modifies this
      ensures items == SortItems(old(items))
      ensures Sorted(items) && multiset(items) == multiset(old(items))
    {
      var sorted: seq<Item> := [];
      for i := 0 to |items|
        invariant sorted == SortItems(items[..i])
      {
        assert items[..i + 1][..i] == items[..i];
        sorted := Insert(sorted, items[i]);
      }
      assert items[..|items|] == items;
      items := sorted;
    }

    /**
     * `Playlist::read_songs`: with no music folder nothing happens;
     * otherwise the items are replaced by the kept files of the walk,
     * relative to the music folder, sorted.
     */
    method ReadSongs(cfg: Config, tree: FsNode)
      requires cfg.musicFolder.Some? && FileName(cfg.musicFolder.value).Some? ==>
        FileName(cfg.musicFolder.value) == Some(tree.name)
      modifies this
      ensures cfg.musicFolder.None? ==> items == old(items)
      ensures cfg.musicFolder.Some? ==>
        items == SortItems(Songs(tree, cfg.musicFolder.value, cfg.skipHidden))
    {
      if cfg.musicFolder.None? {
        return;
      }
      var musicFolder := cfg.musicFolder.value;
      items := [];
      var entries := Walk(tree, musicFolder, cfg.skipHidden);
      WalkUnderRoot(tree, musicFolder, cfg.skipHidden);
      for i := 0 to |entries|
        invariant items == SongsOf(entries[..i], musicFolder)
      {
        var entry := entries[i];
        SongsOfStep(entries, i, musicFolder);
        if entry.fileType == RegularFile {
          var ext := Extension(entry.path);
          var skip := ext.Some? && ext.value in SkippedExts;
          if !skip {
            var path := StripPrefix(entry.path, musicFolder).value;
            items := items + [Item(path)];
          }
        }
      }
      assert entries[..|entries|] == entries;
      Sort();
    }
  }
}
