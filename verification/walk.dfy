/**
 * The search for link sources in the dotfiles tree: a depth-bounded, depth-first,
 * pre-order walk (Python's `os.walk`, top-down) that never enters `.git`, stops
 * descending `walk_depth` levels below the root, and yields every directory or file
 * whose name ends in `.symlink`, directories of a level before its files.
 *
 * The tree is a snapshot of the source directory: each directory lists its entries
 * in the order the operating system returns them.
 */
module Walk {
  import opened Text

  /** The suffix that marks a file or directory as something to link. */
  const Marker: string := ".symlink"

  /** The version-control directory the walk never enters. */
  const VcsDir: string := ".git"

  datatype Entry = FileEntry(name: string) | DirEntry(name: string, children: seq<Entry>)

  /** A directory the walk will list: its segments below the root and its entries. */
  datatype Frame = Frame(dirs: seq<string>, children: seq<Entry>)

  /** A yielded item: the directory it was listed in (segments below the root) and its name. */
  datatype Found = Found(dirs: seq<string>, name: string)

  predicate IsMarked(name: string) {
    EndsWith(name, Marker)
  }

  /**
   * The relative path the generator yields, split on `/`:
   * `os.path.join(os.path.relpath(root, walk_dir), item)`, where the root itself is `.`.
   */
  function RelPath(x: Found): (r: seq<string>)
    ensures |r| >= 2 && r[|r| - 1] == x.name
    ensures x.dirs != [] ==> r == x.dirs + [x.name]
    ensures x.dirs == [] ==> r == [".", x.name]
  {
    (if x.dirs == [] then ["."] else x.dirs) + [x.name]
  }

  /** The `dirs` list of one level after `dirs.remove('.git')`. */
  function Subdirs(cs: seq<Entry>): (r: seq<Entry>)
    ensures forall i :: 0 <= i < |r| ==> r[i].DirEntry?
  {
    if cs == [] then []
    else (if cs[0].DirEntry? && cs[0].name != VcsDir then [cs[0]] else []) + Subdirs(cs[1..])
  }

  /** The `files` list of one level. */
  function Files(cs: seq<Entry>): seq<Entry> {
    if cs == [] then []
    else (if cs[0].FileEntry? then [cs[0]] else []) + Files(cs[1..])
  }

  /** The marked names among `es`, in order, as items of directory `dirs`. */
  function Marked(dirs: seq<string>, es: seq<Entry>): seq<Found> {
    if es == [] then []
    else (if IsMarked(es[0].name) then [Found(dirs, es[0].name)] else []) + Marked(dirs, es[1..])
  }

  lemma {:induction false} SubdirsMembers(cs: seq<Entry>)
    ensures forall e :: e in Subdirs(cs) <==> e in cs && e.DirEntry? && e.name != VcsDir
  {
    if cs != [] {
      SubdirsMembers(cs[1..]);
      assert cs == [cs[0]] + cs[1..];
    }
  }

  lemma {:induction false} FilesMembers(cs: seq<Entry>)
    ensures forall e :: e in Files(cs) <==> e in cs && e.FileEntry?
  {
    if cs != [] {
      FilesMembers(cs[1..]);
      assert cs == [cs[0]] + cs[1..];
    }
  }

  lemma {:induction false} MarkedMembers(dirs: seq<string>, es: seq<Entry>, x: Found)
    ensures x in Marked(dirs, es) <==> x.dirs == dirs && IsMarked(x.name) && exists e :: e in es && e.name == x.name
  {
    if es != [] {
      MarkedMembers(dirs, es[1..], x);
      assert es == [es[0]] + es[1..];
    }
  }

  lemma {:induction false} MarkedSnoc(dirs: seq<string>, es: seq<Entry>, e: Entry)
    ensures Marked(dirs, es + [e]) == Marked(dirs, es) + (if IsMarked(e.name) then [Found(dirs, e.name)] else [])
  {
    if es != [] {
      assert (es + [e])[1..] == es[1..] + [e];
      MarkedSnoc(dirs, es[1..], e);
    } else {
      assert Marked(dirs, [e][1..]) == [];
    }
  }

  /** What one level yields: `for item in dirs + files: if item.endswith('.symlink')`. */
  function LevelItems(f: Frame): seq<Found> {
    Marked(f.dirs, Subdirs(f.children) + Files(f.children))
  }

  /** The frames of the subdirectories `ds` of directory `dirs`, in order. */
  function Frames(dirs: seq<string>, ds: seq<Entry>): (r: seq<Frame>)
    requires forall e :: e in ds ==> e.DirEntry?
    ensures |r| == |ds|
    ensures forall i :: 0 <= i < |ds| ==> r[i] == Frame(dirs + [ds[i].name], ds[i].children)
  {
    if ds == [] then [] else [Frame(dirs + [ds[0].name], ds[0].children)] + Frames(dirs, ds[1..])
  }

  /** The levels the walk enters below `f`: none once `f` is `depth` levels down (`del dirs[:]`). */
  function SubFrames(f: Frame, depth: int): seq<Frame> {
    if |f.dirs| >= depth then [] else Frames(f.dirs, Subdirs(f.children))
  }

  function Size(e: Entry): nat
    decreases e, 1
  {
    match e
    case FileEntry(_) => 1
    case DirEntry(_, cs) => 1 + SizeAll(cs)
  }

  function SizeAll(cs: seq<Entry>): nat
    decreases cs, 0
  {
    if cs == [] then 0 else Size(cs[0]) + SizeAll(cs[1..])
  }

  function StackSize(stack: seq<Frame>): nat {
    if stack == [] then 0 else 1 + SizeAll(stack[0].children) + StackSize(stack[1..])
  }

  lemma {:induction false} StackSizeAppend(a: seq<Frame>, b: seq<Frame>)
    ensures StackSize(a + b) == StackSize(a) + StackSize(b)
  {
    if a != [] {
      assert (a + b)[1..] == a[1..] + b;
      StackSizeAppend(a[1..], b);
    } else {
      assert a + b == b;
    }
  }

  lemma {:induction false} SubdirsSmaller(cs: seq<Entry>, dirs: seq<string>)
    ensures StackSize(Frames(dirs, Subdirs(cs))) <= SizeAll(cs)
  {
    if cs != [] {
      SubdirsSmaller(cs[1..], dirs);
      var ds := Subdirs(cs);
      if cs[0].DirEntry? && cs[0].name != VcsDir {
        assert ds == [cs[0]] + Subdirs(cs[1..]);
        assert Frames(dirs, ds) == [Frame(dirs + [cs[0].name], cs[0].children)] + Frames(dirs, Subdirs(cs[1..]));
      } else {
        assert ds == Subdirs(cs[1..]);
      }
    }
  }

  /** Entering the subdirectories of a level leaves less of the tree to walk. */
  lemma SubFramesSmaller(stack: seq<Frame>, depth: int)
    requires stack != []
    ensures StackSize(SubFrames(stack[0], depth) + stack[1..]) < StackSize(stack)
  {
    StackSizeAppend(SubFrames(stack[0], depth), stack[1..]);
    SubdirsSmaller(stack[0].children, stack[0].dirs);
  }

  /**
   * Everything the walk yields from a stack of levels still to list (first level first):
   * the items of the first level, then the walk of its subdirectories, then the rest.
   */
  function WalkFrames(stack: seq<Frame>, depth: int): seq<Found>
    decreases StackSize(stack)
  {
    if stack == [] then []
    else
      SubFramesSmaller(stack, depth);
      LevelItems(stack[0]) + WalkFrames(SubFrames(stack[0], depth) + stack[1..], depth)
  }

  /** Everything `find_files_to_symlink` yields for a source tree whose root lists `tree`. */
  function Walk(tree: seq<Entry>, depth: int): seq<Found> {
    WalkFrames([Frame([], tree)], depth)
  }

  /** Lists one level: `for item in dirs + files: if item.endswith('.symlink'): yield ...`. */
  method ListLevel(f: Frame) returns (level: seq<Found>)
    ensures level == LevelItems(f)
  {
    var items := Subdirs(f.children) + Files(f.children);
    level := [];
    for i := 0 to |items|
      invariant level == Marked(f.dirs, items[..i])
    {
      MarkedSnoc(f.dirs, items[..i], items[i]);
      assert items[..i + 1] == items[..i] + [items[i]];
      if IsMarked(items[i].name) {
        level := level + [Found(f.dirs, items[i].name)];
      }
    }
    assert items[..|items|] == items;
  }

  /** One step of the walk: list the first level, then put the levels it enters in front of the rest. */
  lemma WalkFramesStep(found: seq<Found>, stack: seq<Frame>, depth: int)
    requires stack != []
    ensures StackSize(SubFrames(stack[0], depth) + stack[1..]) < StackSize(stack)
    ensures found + WalkFrames(stack, depth) == (found + LevelItems(stack[0])) + WalkFrames(SubFrames(stack[0], depth) + stack[1..], depth)
  {
    SubFramesSmaller(stack, depth);
  }

  /**
   * `find_files_to_symlink`: the walk run with an explicit stack of directories still to
   * list, as `os.walk` does, pruning `.git` and the levels beyond `depth`.
   */
  method FindFilesToSymlink(tree: seq<Entry>, depth: int) returns (found: seq<Found>)
    ensures found == Walk(tree, depth)
  {
    var stack := [Frame([], tree)];
    found := [];
    assert found + WalkFrames(stack, depth) == Walk(tree, depth);
    while stack != []
      invariant found + WalkFrames(stack, depth) == Walk(tree, depth)
      decreases StackSize(stack)
    {
      var f := stack[0];
      var level := ListLevel(f);
      var dirs := Subdirs(f.children);
      if |f.dirs| >= depth {
        dirs := [];
      }
      var next := Frames(f.dirs, dirs) + stack[1..];
      WalkFramesStep(found, stack, depth);
      found := found + level;
      stack := next;
    }
    assert found + WalkFrames([], depth) == found;
  }

  /**
   * The declarative reading of the walk: item `x` is found at or below level `f` when
   * it is a marked entry listed in `x.dirs`, and every directory on the way there from
   * `f` is a real subdirectory, is not `.git`, and is entered only from a level less
   * than `depth` below the root. A level at the depth bound still yields its own items.
   */
  ghost predicate Yields(f: Frame, depth: int, x: Found)
    decreases |x.dirs| - |f.dirs|
  {
    && |f.dirs| <= |x.dirs| && x.dirs[..|f.dirs|] == f.dirs
    && if |x.dirs| == |f.dirs| then
         IsMarked(x.name) && exists e :: e in f.children && e.name == x.name
       else
         && |f.dirs| < depth
         && exists e :: e in f.children && e.DirEntry? && e.name != VcsDir && e.name == x.dirs[|f.dirs|]
                          && Yields(Frame(f.dirs + [e.name], e.children), depth, x)
  }

  /** A level's own items are what the declarative reading finds at that very level. */
  lemma LevelItemsYield(f: Frame, depth: int, x: Found)
    ensures x in LevelItems(f) <==> |x.dirs| == |f.dirs| && Yields(f, depth, x)
  {
    var items := Subdirs(f.children) + Files(f.children);
    SubdirsMembers(f.children);
    FilesMembers(f.children);
    MarkedMembers(f.dirs, items, x);
    if x.dirs == f.dirs && IsMarked(x.name) && (exists e :: e in f.children && e.name == x.name) {
      var e :| e in f.children && e.name == x.name;
      assert !(e.DirEntry? && e.name == VcsDir) by {
        assert |Marker| > |VcsDir|;
      }
      assert e in items;
    }
    if |x.dirs| == |f.dirs| {
      YieldsHere(f, depth, x);
    }
  }

  /** At a level's own depth, the declarative reading asks for a marked child of that level. */
  lemma YieldsHere(f: Frame, depth: int, x: Found)
    requires |x.dirs| == |f.dirs|
    ensures Yields(f, depth, x) <==> x.dirs == f.dirs && IsMarked(x.name) && exists e :: e in f.children && e.name == x.name
  {
    assert x.dirs[..|f.dirs|] == x.dirs;
  }

  /** The subdirectory `e` of level `f` is entered when `f` is above the depth bound. */
  lemma SubFrameOf(f: Frame, depth: int, e: Entry)
    requires e in f.children && e.DirEntry? && e.name != VcsDir && |f.dirs| < depth
    ensures Frame(f.dirs + [e.name], e.children) in SubFrames(f, depth)
  {
    var ds := Subdirs(f.children);
    SubdirsMembers(f.children);
    var i :| 0 <= i < |ds| && ds[i] == e;
    assert SubFrames(f, depth)[i] == Frame(f.dirs + [e.name], e.children);
  }

  /** Every entered level is a non-`.git` subdirectory of a level above the depth bound. */
  lemma SubFrameFrom(f: Frame, depth: int, g: Frame) returns (e: Entry)
    requires g in SubFrames(f, depth)
    ensures |f.dirs| < depth
    ensures e in f.children && e.DirEntry? && e.name != VcsDir && g == Frame(f.dirs + [e.name], e.children)
  {
    var ds := Subdirs(f.children);
    SubdirsMembers(f.children);
    var subs := Frames(f.dirs, ds);
    var i :| 0 <= i < |subs| && subs[i] == g;
    e := ds[i];
    assert e in ds;
  }

  /** What an entered subdirectory finds lies strictly below the level that entered it. */
  lemma SubFrameYieldUp(f: Frame, depth: int, g: Frame, x: Found)
    requires g in SubFrames(f, depth) && Yields(g, depth, x)
    ensures |x.dirs| != |f.dirs| && Yields(f, depth, x)
  {
    var e := SubFrameFrom(f, depth, g);
    assert |f.dirs| + 1 <= |x.dirs|;
    assert x.dirs[..|f.dirs| + 1] == f.dirs + [e.name];
    assert x.dirs[..|f.dirs|] == x.dirs[..|f.dirs| + 1][..|f.dirs|];
    assert x.dirs[|f.dirs|] == x.dirs[..|f.dirs| + 1][|f.dirs|];
  }

  /** The walk below a level's subdirectories finds exactly what lies strictly below that level. */
  lemma SubFramesYield(f: Frame, depth: int, x: Found)
    ensures (exists g :: g in SubFrames(f, depth) && Yields(g, depth, x)) <==> |x.dirs| != |f.dirs| && Yields(f, depth, x)
  {
    if exists g :: g in SubFrames(f, depth) && Yields(g, depth, x) {
      var g :| g in SubFrames(f, depth) && Yields(g, depth, x);
      SubFrameYieldUp(f, depth, g, x);
    }
    if |x.dirs| != |f.dirs| && Yields(f, depth, x) {
      var e :| e in f.children && e.DirEntry? && e.name != VcsDir && e.name == x.dirs[|f.dirs|]
               && Yields(Frame(f.dirs + [e.name], e.children), depth, x);
      SubFrameOf(f, depth, e);
    }
  }

  /** One level of the declarative reading: the level's own items or an entered subdirectory's. */
  lemma YieldsUnfold(f: Frame, depth: int, x: Found)
    ensures Yields(f, depth, x) <==> x in LevelItems(f) || exists g :: g in SubFrames(f, depth) && Yields(g, depth, x)
  {
    LevelItemsYield(f, depth, x);
    SubFramesYield(f, depth, x);
  }

  /** Membership in the walk of a stack is the declarative reading of one of its levels. */
  lemma {:induction false} WalkFramesYields(stack: seq<Frame>, depth: int, x: Found)
    ensures x in WalkFrames(stack, depth) <==> exists g :: g in stack && Yields(g, depth, x)
    decreases StackSize(stack)
  {
    if stack != [] {
      var f := stack[0];
      var next := SubFrames(f, depth) + stack[1..];
      SubFramesSmaller(stack, depth);
      WalkFramesYields(next, depth, x);
      YieldsUnfold(f, depth, x);
      assert stack == [f] + stack[1..];
      if exists g :: g in stack && Yields(g, depth, x) {
        var g :| g in stack && Yields(g, depth, x);
        if g != f {
          assert g in stack[1..];
        }
      }
    }
  }

  /**
   * What `find_files_to_symlink` yields is exactly what the declarative reading finds
   * from the root: marked names only, nothing below `.git`, no level entered from
   * `depth` levels down, and every marked entry of every entered level (pruned levels
   * included).
   */
  lemma WalkExactly(tree: seq<Entry>, depth: int, x: Found)
    ensures x in Walk(tree, depth) <==> Yields(Frame([], tree), depth, x)
  {
    WalkFramesYields([Frame([], tree)], depth, x);
  }

  /**
   * Read from the declarative side: the item is marked, no directory on its way is `.git`,
   * and it sits at most `max(depth, 0)` levels below the root.
   */
  lemma {:induction false} YieldsBounds(f: Frame, depth: int, x: Found)
    requires Yields(f, depth, x)
    requires VcsDir !in f.dirs && |f.dirs| <= if depth < 0 then 0 else depth
    ensures IsMarked(x.name) && VcsDir !in x.dirs
    ensures |x.dirs| <= if depth < 0 then 0 else depth
    decreases |x.dirs| - |f.dirs|
  {
    if |x.dirs| == |f.dirs| {
      assert x.dirs == x.dirs[..|f.dirs|];
    } else {
      var e :| e in f.children && e.DirEntry? && e.name != VcsDir && e.name == x.dirs[|f.dirs|]
               && Yields(Frame(f.dirs + [e.name], e.children), depth, x);
      YieldsBounds(Frame(f.dirs + [e.name], e.children), depth, x);
    }
  }

  /**
   * Every path the walk yields ends in `.symlink`, passes through no `.git` directory,
   * and lies at most `max(depth, 1) + 1` segments deep (the root level yields `./name`).
   */
  lemma WalkSound(tree: seq<Entry>, depth: int, x: Found)
    requires x in Walk(tree, depth)
    ensures IsMarked(x.name) && VcsDir !in RelPath(x)
    ensures |x.dirs| <= if depth < 0 then 0 else depth
    ensures |RelPath(x)| <= (if depth < 1 then 1 else depth) + 1
  {
    WalkExactly(tree, depth, x);
    YieldsBounds(Frame([], tree), depth, x);
    assert x.name != VcsDir by {
      assert |Marker| > |VcsDir|;
    }
  }
}
