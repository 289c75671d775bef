/**
 * The filesystem as the reconciler sees it: a map from absolute paths (sequences of
 * segments below `/`) to regular files, directories and symbolic links. A link keeps
 * its destination as raw text, exactly what `readlink` returns. Existence follows a
 * link at the path itself, as `os.path.exists` does, but every directory component of
 * a path is taken to be a real directory: links among the components are not followed.
 * The shell commands the reconciler issues (`mkdir -p`, `ln -s`, `mv`, `rm`) are map
 * updates.
 */
module FileSystem {
  import opened Text

  type Path = seq<string>

  datatype Node = File(content: string) | Dir | Link(dest: string)

  type Fs = map<Path, Node>

  /** Linux gives up resolving a path after following this many links (MAXSYMLINKS). */
  const MaxSymlinks: nat := 40

  /** Text of an absolute path, as `os.path.join` builds it from `/` and the segments. */
  function Render(p: Path): string {
    "/" + JoinOn(p, "/")
  }

  predicate HasPrefix(p: Path, q: Path) {
    |q| <= |p| && p[..|q|] == q
  }

  function Parent(p: Path): Path
    requires p != []
  {
    p[..|p| - 1]
  }

  /** A segment a path can hold literally: not empty, not `.` or `..`, no `/`. */
  predicate PlainSegment(s: string) {
    s != "" && s != "." && s != ".." && '/' !in s
  }

  predicate PlainPath(p: Path) {
    forall i :: 0 <= i < |p| ==> PlainSegment(p[i])
  }

  /** Walks the segments of a path text from `base`: empty and `.` stay, `..` climbs (not above `/`). */
  function Normalize(base: Path, segs: seq<string>): Path
    decreases |segs|
  {
    if segs == [] then base
    else if segs[0] == "" || segs[0] == "." then Normalize(base, segs[1..])
    else if segs[0] == ".." then Normalize(if base == [] then [] else Parent(base), segs[1..])
    else Normalize(base + [segs[0]], segs[1..])
  }

  /** The path a link at `at` whose text is `dest` points to: absolute text from `/`, relative from the link's directory. */
  function Resolve(at: Path, dest: string): Path
    requires at != []
  {
    Normalize(if StartsWith(dest, "/") then [] else Parent(at), SplitOn(dest, '/'))
  }

  /** `p` exists after following at most `hops` links (`os.path.exists`, which follows links). */
  predicate Reaches(fs: Fs, p: Path, hops: nat)
    decreases hops
  {
    p in fs && (fs[p].Link? ==> p != [] && hops > 0 && Reaches(fs, Resolve(p, fs[p].dest), hops - 1))
  }

  predicate Exists(fs: Fs, p: Path) {
    Reaches(fs, p, MaxSymlinks)
  }

  /** `os.path.islink`: the entry itself is a link, whatever it points to. */
  predicate IsLink(fs: Fs, p: Path) {
    p in fs && fs[p].Link?
  }

  /**
   * A link whose destination does not exist (`islink(p) and not exists(p)`): a link to
   * nothing is broken, a link to a file or a directory is not.
   */
  predicate IsBroken(fs: Fs, p: Path)
    ensures IsLink(fs, p) && p != [] && Resolve(p, fs[p].dest) !in fs ==> IsBroken(fs, p)
    ensures IsLink(fs, p) && p != [] && Resolve(p, fs[p].dest) in fs && !fs[Resolve(p, fs[p].dest)].Link? ==> !IsBroken(fs, p)
  {
    IsLink(fs, p) && !Exists(fs, p)
  }

  /** Plain segments are taken literally, one level each. */
  lemma {:induction false} NormalizePlain(base: Path, p: Path)
    requires PlainPath(p)
    ensures Normalize(base, p) == base + p
    decreases |p|
  {
    if p != [] {
      NormalizePlain(base + [p[0]], p[1..]);
      assert base + [p[0]] + p[1..] == base + p;
    }
  }

  /**
   * The text a link is created with resolves back to the path it was rendered from,
   * with the `.` segments dropped: for a plain path, the path itself.
   */
  lemma {:induction false} RenderResolves(at: Path, p: Path)
    requires at != []
    requires forall i :: 0 <= i < |p| ==> '/' !in p[i]
    ensures Resolve(at, Render(p)) == Normalize([], p)
    ensures PlainPath(p) ==> Resolve(at, Render(p)) == p
  {
    var text := Render(p);
    assert StartsWith(text, "/");
    SplitRender(p);
    if p == [] {
      assert Normalize([], ["", ""]) == Normalize([], [""]) == [];
    } else {
      assert Normalize([], [""] + p) == Normalize([], p) by {
        assert ([""] + p)[1..] == p;
      }
    }
    if PlainPath(p) {
      NormalizePlain([], p);
    }
  }

  /** The pieces of a rendered path: an empty piece for the leading `/`, then the segments. */
  lemma {:induction false} SplitRender(p: Path)
    requires forall i :: 0 <= i < |p| ==> '/' !in p[i]
    ensures SplitOn(Render(p), '/') == if p == [] then ["", ""] else [""] + p
  {
    var j := JoinOn(p, "/");
    var text := "/" + j;
    assert text[0] == '/';
    assert IndexOf(text, '/') == 0;
    assert text[..0] == "" && text[1..] == j;
    if p == [] {
      assert j == "";
      assert SplitOn("", '/') == [""];
    } else {
      SplitOfJoin(p, '/');
    }
  }

  /** More hops never make an existing path vanish. */
  lemma {:induction false} ReachesMonotone(fs: Fs, p: Path, n: nat, m: nat)
    requires n <= m && Reaches(fs, p, n)
    ensures Reaches(fs, p, m)
    decreases n
  {
    if fs[p].Link? {
      ReachesMonotone(fs, Resolve(p, fs[p].dest), n - 1, m - 1);
    }
  }

  /**
   * Removing broken links never changes whether any other path exists: a path that
   * resolves through a broken link did not exist before either.
   */
  lemma {:induction false} RemoveBrokenKeepsExistence(fs: Fs, gone: set<Path>, p: Path, n: nat)
    requires forall q :: q in gone ==> IsBroken(fs, q)
    requires p !in gone && n <= MaxSymlinks
    ensures Reaches(fs - gone, p, n) <==> Reaches(fs, p, n)
    decreases n
  {
    if p in fs && fs[p].Link? && p != [] && n > 0 {
      var q := Resolve(p, fs[p].dest);
      if q in gone {
        assert !Reaches(fs - gone, q, n - 1);
        if Reaches(fs, q, n - 1) {
          ReachesMonotone(fs, q, n - 1, MaxSymlinks);
        }
      } else {
        RemoveBrokenKeepsExistence(fs, gone, q, n - 1);
      }
    }
  }

  /** Every non-empty prefix of `d`: the directories `mkdir -p d` needs. */
  function Ancestry(d: Path): set<Path> {
    set k | 1 <= k <= |d| :: d[..k]
  }

  /** A directory at `d`; the root always is one. */
  predicate IsDir(fs: Fs, d: Path) {
    d == [] || (d in fs && fs[d].Dir?)
  }

  /**
   * A filesystem as the kernel keeps it: every entry lies in a directory. In particular
   * nothing lies below a regular file or a link.
   */
  predicate WellFormed(fs: Fs) {
    forall k :: k in fs && k != [] ==> IsDir(fs, Parent(k))
  }

  /** Nothing on the way to `d`, `d` included, is a file or a link: `mkdir -p d` can get through. */
  predicate Clear(fs: Fs, d: Path) {
    forall k :: 1 <= k <= |d| && d[..k] in fs ==> fs[d[..k]].Dir?
  }

  /** In a well-formed filesystem every proper prefix of an entry is a directory. */
  lemma {:induction false} WellFormedPrefix(fs: Fs, k: Path, j: nat)
    requires WellFormed(fs) && k in fs && j < |k|
    ensures IsDir(fs, k[..j])
    decreases |k| - j
  {
    if j < |k| - 1 {
      var q := Parent(k);
      assert q in fs;
      WellFormedPrefix(fs, q, j);
      assert q[..j] == k[..j];
    }
  }

  /** So the way to an entry is clear. */
  lemma WellFormedClear(fs: Fs, t: Path)
    requires WellFormed(fs) && t in fs && t != []
    ensures Clear(fs, Parent(t))
  {
    forall k | 1 <= k <= |Parent(t)| && Parent(t)[..k] in fs
      ensures fs[Parent(t)[..k]].Dir?
    {
      WellFormedPrefix(fs, t, k);
      assert Parent(t)[..k] == t[..k];
    }
  }

  /** A directory, with everything on the way to it, is clear. */
  lemma DirClear(fs: Fs, d: Path)
    requires WellFormed(fs) && IsDir(fs, d)
    ensures Clear(fs, d)
  {
    forall k | 1 <= k <= |d| && d[..k] in fs
      ensures fs[d[..k]].Dir?
    {
      if k < |d| {
        WellFormedPrefix(fs, d, k);
      } else {
        assert d[..k] == d;
      }
    }
  }

  /** Whether the way to `d` is clear depends only on the entries on the way. */
  lemma ClearAlike(fs: Fs, fs': Fs, d: Path)
    requires forall k :: 1 <= k <= |d| ==> (d[..k] in fs <==> d[..k] in fs')
    requires forall k :: 1 <= k <= |d| && d[..k] in fs ==> fs[d[..k]] == fs'[d[..k]]
    ensures Clear(fs, d) <==> Clear(fs', d)
  {
  }

  /** A path naming an entry that is there and is not a link; its segments are taken literally. */
  predicate Present(fs: Fs, p: Path) {
    PlainPath(p) && p in fs && !fs[p].Link?
  }

  /** Segments as a directory listing gives them: none holds a `/`. */
  predicate Slashless(p: Path) {
    forall i :: 0 <= i < |p| ==> '/' !in p[i]
  }

  /**
   * A link whose text names a present entry exists, so it is not broken. The text may
   * hold `.` segments (the walk yields `./name` for items at the top of the tree): what
   * must be present is the path they stand for.
   */
  lemma LinkToPresentExists(fs: Fs, k: Path, p: Path)
    requires k != [] && k in fs && fs[k] == Link(Render(p)) && Slashless(p) && Present(fs, Normalize([], p))
    ensures Exists(fs, k) && !IsBroken(fs, k)
  {
    RenderResolves(k, p);
    assert Reaches(fs, Normalize([], p), MaxSymlinks - 1);
  }

  /** A `.` segment stands for nothing: `/s/./name` is the path `/s/name`. */
  lemma {:induction false} NormalizeDot(base: Path, p: Path, q: Path)
    requires PlainPath(p) && PlainPath(q)
    ensures Normalize(base, p + ["."] + q) == base + p + q
    decreases |p|
  {
    if p == [] {
      assert (["."] + q)[1..] == q;
      NormalizePlain(base, q);
    } else {
      assert (p + ["."] + q)[0] == p[0] && (p + ["."] + q)[1..] == p[1..] + ["."] + q;
      NormalizeDot(base + [p[0]], p[1..], q);
      assert base + [p[0]] + p[1..] == base + p;
    }
  }

  /** A file or a link replaced by another file or link: no entry lies below either. */
  lemma ReplaceKeepsWellFormed(fs: Fs, t: Path, n: Node)
    requires WellFormed(fs) && t in fs && !fs[t].Dir? && !n.Dir?
    ensures WellFormed(fs[t := n])
  {
    var r := fs[t := n];
    forall k | k in r && k != []
      ensures IsDir(r, Parent(k))
    {
      if Parent(k) != [] {
        assert Parent(k) in fs && fs[Parent(k)].Dir?;
      }
    }
  }

  /**
   * `mkdir -p d`: creates each missing directory on the way to `d`, touching nothing
   * that exists, and gets through only where nothing on the way is a file or a link.
   */
  function MkdirP(fs: Fs, d: Path): (r: Fs)
    ensures forall k :: k in fs ==> k in r && r[k] == fs[k]
    ensures forall k :: k in r && k !in fs ==> k in Ancestry(d) && r[k] == Dir && Clear(fs, k)
    ensures Clear(fs, d) ==> forall k :: 1 <= k <= |d| ==> d[..k] in r && r[d[..k]] == Dir
  {
    var made := map q | q in Ancestry(d) && q !in fs && Clear(fs, q) :: Dir;
    var r := fs + made;
    assert Clear(fs, d) ==> forall k :: 1 <= k <= |d| ==> d[..k] in r && r[d[..k]] == Dir by {
      if Clear(fs, d) {
        forall k | 1 <= k <= |d|
          ensures d[..k] in r && r[d[..k]] == Dir
        {
          assert d[..k] in Ancestry(d);
          forall j | 1 <= j <= k && d[..k][..j] in fs
            ensures fs[d[..k][..j]].Dir?
          {
            assert d[..k][..j] == d[..j];
          }
        }
      }
    }
    r
  }

  /** Where something on the way to `d` is a file or a link, `mkdir -p d` fails and creates nothing. */
  lemma MkdirPBlocked(fs: Fs, d: Path)
    requires WellFormed(fs) && !Clear(fs, d)
    ensures MkdirP(fs, d) == fs
  {
    var j :| 1 <= j <= |d| && d[..j] in fs && !fs[d[..j]].Dir?;
    forall m | 1 <= m <= |d|
      ensures d[..m] in fs || !Clear(fs, d[..m])
    {
      BlockedBeyond(fs, d, j, m);
    }
    var r := MkdirP(fs, d);
    assert r.Keys == fs.Keys;
  }

  lemma BlockedBeyond(fs: Fs, d: Path, j: nat, m: nat)
    requires WellFormed(fs) && 1 <= j <= |d| && d[..j] in fs && !fs[d[..j]].Dir?
    requires 1 <= m <= |d|
    ensures d[..m] in fs || !Clear(fs, d[..m])
  {
    if m > j {
      assert d[..m][..j] == d[..j];
    } else if m < j {
      WellFormedPrefix(fs, d[..j], m);
      assert d[..j][..m] == d[..m];
    }
  }

  lemma MkdirPKeepsWellFormed(fs: Fs, d: Path)
    requires WellFormed(fs)
    ensures WellFormed(MkdirP(fs, d))
  {
    var r := MkdirP(fs, d);
    forall k | k in r && k != []
      ensures IsDir(r, Parent(k))
    {
      if k !in fs && Parent(k) != [] {
        var m :| 1 <= m <= |d| && k == d[..m];
        var q := Parent(k);
        assert q == d[..m - 1];
        if q in fs {
          assert k[..m - 1] == q;
        } else {
          assert q in Ancestry(d);
          assert Clear(fs, q) by {
            forall i | 1 <= i <= |q| && q[..i] in fs
              ensures fs[q[..i]].Dir?
            {
              assert q[..i] == k[..i];
            }
          }
          assert q in r && r[q] == Dir by {
            var r2 := MkdirP(fs, d);
            assert r2 == r;
            if q !in r {
              assert d[..m - 1] == q;
              MkdirPMakes(fs, d, q);
            }
          }
        }
      }
    }
  }

  /** A missing directory on the way to `d` with nothing in its way is created. */
  lemma MkdirPMakes(fs: Fs, d: Path, q: Path)
    requires q in Ancestry(d) && q !in fs && Clear(fs, q)
    ensures q in MkdirP(fs, d) && MkdirP(fs, d)[q] == Dir
  {
  }

  /** Room for a new entry at `t`: `t` lies in an existing directory. */
  predicate Room(fs: Fs, t: Path) {
    t != [] && IsDir(fs, Parent(t))
  }

  /**
   * `ln -s src t`: a fresh link at `t` when `t` lies in a directory; when `t` is a
   * directory, the link lands inside it under the source's last segment; otherwise
   * `ln` fails and nothing changes.
   */
  function LnS(fs: Fs, src: Path, t: Path): (r: Fs)
    ensures forall k :: k in fs ==> k in r && r[k] == fs[k]
    ensures forall k :: k in r && k !in fs ==> r[k] == Link(Render(src)) && (k == t || (src != [] && k == t + [src[|src| - 1]]))
    ensures t !in fs ==> (t in r <==> Room(fs, t))
    ensures t in fs && !fs[t].Dir? ==> r == fs
  {
    if t !in fs then (if Room(fs, t) then fs[t := Link(Render(src))] else fs)
    else if fs[t].Dir? && src != [] && t + [src[|src| - 1]] !in fs then fs[t + [src[|src| - 1]] := Link(Render(src))]
    else fs
  }

  lemma LnSKeepsWellFormed(fs: Fs, src: Path, t: Path)
    requires WellFormed(fs)
    ensures WellFormed(LnS(fs, src, t))
  {
    if t !in fs {
      if Room(fs, t) {
        AddKeepsWellFormed(fs, t, Link(Render(src)));
      }
    } else if fs[t].Dir? && src != [] && t + [src[|src| - 1]] !in fs {
      assert Parent(t + [src[|src| - 1]]) == t;
      AddKeepsWellFormed(fs, t + [src[|src| - 1]], Link(Render(src)));
    }
  }

  /** A new entry that lies in a directory keeps every entry in one. */
  lemma AddKeepsWellFormed(fs: Fs, t: Path, n: Node)
    requires WellFormed(fs) && t !in fs && Room(fs, t)
    ensures WellFormed(fs[t := n])
  {
    var r := fs[t := n];
    forall k | k in r && k != []
      ensures IsDir(r, Parent(k))
    {
      if k != t && Parent(k) != [] {
        assert Parent(k) in fs && Parent(k) != t;
      }
    }
  }

  /** The name `mv "{0}" "{0}.backup"` gives to the moved entry. */
  function BackupPath(t: Path): (u: Path)
    requires t != []
    ensures |u| == |t| && Parent(u) == Parent(t)
    ensures !HasPrefix(u, t) && !HasPrefix(t, u)
    ensures Render(u) == Render(t) + ".backup"
  {
    var u := Parent(t) + [t[|t| - 1] + ".backup"];
    assert u[|t| - 1] != t[|t| - 1] by {
      assert |u[|t| - 1]| == |t[|t| - 1]| + 7;
    }
    assert u[..|t|] == u && t[..|u|] == t;
    RenderSnoc(Parent(t), t[|t| - 1], ".backup");
    assert Parent(t) + [t[|t| - 1]] == t;
    u
  }

  /** Appending text to the last segment appends it to the rendered path. */
  lemma {:induction false} RenderSnoc(p: Path, last: string, more: string)
    ensures Render(p + [last + more]) == Render(p + [last]) + more
    decreases |p|
  {
    JoinSnoc(p, last, more);
  }

  lemma {:induction false} JoinSnoc(p: Path, last: string, more: string)
    ensures JoinOn(p + [last + more], "/") == JoinOn(p + [last], "/") + more
    decreases |p|
  {
    if p != [] {
      JoinSnoc(p[1..], last, more);
      assert (p + [last + more])[1..] == p[1..] + [last + more];
      assert (p + [last])[1..] == p[1..] + [last];
    }
  }

  /**
   * `mv t u` with an explicit overwrite of whatever was at `u`: the entry at `t` and
   * everything below it now live under `u`; every path outside both subtrees is kept.
   */
  function MoveTree(fs: Fs, t: Path, u: Path): (r: Fs)
    requires !HasPrefix(u, t) && !HasPrefix(t, u)
    ensures forall k :: k in fs && !HasPrefix(k, t) && !HasPrefix(k, u) ==> k in r && r[k] == fs[k]
    ensures forall k :: k in fs && HasPrefix(k, t) ==> u + k[|t|..] in r && r[u + k[|t|..]] == fs[k]
    ensures forall k :: k in r ==> !HasPrefix(k, t)
    ensures forall k :: k in r && !HasPrefix(k, u) ==> k in fs && r[k] == fs[k]
  {
    var kept := map k | k in fs && !HasPrefix(k, t) && !HasPrefix(k, u) :: fs[k];
    var moved := Moved(fs, t, u);
    assert forall k :: k in moved ==> !HasPrefix(k, t) by {
      forall k | k in moved
        ensures !HasPrefix(k, t)
      {
        if HasPrefix(k, t) {
          CommonPrefix(k, t, u);
        }
      }
    }
    kept + moved
  }

  /** The entries under `t`, renamed to live under `u`. */
  function Moved(fs: Fs, t: Path, u: Path): (r: Fs)
    ensures forall k :: k in r ==> HasPrefix(k, u)
    ensures forall k :: k in fs && HasPrefix(k, t) ==> u + k[|t|..] in r && r[u + k[|t|..]] == fs[k]
  {
    MovedKeysDistinct(t, u);
    map k | k in fs && HasPrefix(k, t) :: u + k[|t|..] := fs[k]
  }

  /** Two prefixes of one path are prefixes of each other. */
  lemma CommonPrefix(k: Path, t: Path, u: Path)
    requires HasPrefix(k, t) && HasPrefix(k, u)
    ensures HasPrefix(t, u) || HasPrefix(u, t)
  {
    if |u| <= |t| {
      assert t[..|u|] == k[..|t|][..|u|] == k[..|u|];
    } else {
      assert u[..|t|] == k[..|u|][..|t|] == k[..|t|];
    }
  }

  /** Every entry under `u` after the move came from the same place under `t`. */
  lemma MovedFrom(fs: Fs, t: Path, u: Path, k: Path)
    requires !HasPrefix(u, t) && !HasPrefix(t, u)
    requires k in MoveTree(fs, t, u) && HasPrefix(k, u)
    ensures t + k[|u|..] in fs && HasPrefix(t + k[|u|..], t) && MoveTree(fs, t, u)[k] == fs[t + k[|u|..]]
  {
    var k0 :| k0 in fs && HasPrefix(k0, t) && k == u + k0[|t|..];
    assert k[|u|..] == k0[|t|..];
    assert t + k0[|t|..] == k0;
  }

  lemma MovedKeysDistinct(t: Path, u: Path)
    ensures forall k1, k2 :: HasPrefix(k1, t) && HasPrefix(k2, t) && u + k1[|t|..] == u + k2[|t|..] ==> k1 == k2
  {
    forall k1, k2 | HasPrefix(k1, t) && HasPrefix(k2, t) && u + k1[|t|..] == u + k2[|t|..]
      ensures k1 == k2
    {
      assert (u + k1[|t|..])[|u|..] == k1[|t|..];
      assert (u + k2[|t|..])[|u|..] == k2[|t|..];
      assert k1 == t + k1[|t|..] && k2 == t + k2[|t|..];
    }
  }

  /**
   * `mv t t.backup`, with everything below `t` moved along, keeps every entry in a
   * directory: the backup lies in `t`'s own directory.
   */
  lemma MoveBackupKeepsWellFormed(fs: Fs, t: Path)
    requires WellFormed(fs) && t != []
    ensures WellFormed(MoveTree(fs, t, BackupPath(t)))
  {
    var u := BackupPath(t);
    var r := MoveTree(fs, t, u);
    forall k | k in r && k != []
      ensures IsDir(r, Parent(k))
    {
      if HasPrefix(k, u) {
        MovedParent(fs, t, k);
      } else {
        KeptParent(fs, t, k);
      }
    }
  }

  lemma MovedParent(fs: Fs, t: Path, k: Path)
    requires WellFormed(fs) && t != []
    requires k in MoveTree(fs, t, BackupPath(t)) && HasPrefix(k, BackupPath(t))
    ensures IsDir(MoveTree(fs, t, BackupPath(t)), Parent(k))
  {
    var u := BackupPath(t);
    MovedFrom(fs, t, u, k);
    if |k| == |u| {
      assert t + k[|u|..] == t;
      BackupParent(fs, t);
      assert k == k[..|u|] == u;
    } else {
      MovedDeeperParent(fs, t, k);
    }
  }

  /** The backup lies in the directory the target lay in, which stays. */
  lemma BackupParent(fs: Fs, t: Path)
    requires WellFormed(fs) && t != [] && t in fs
    ensures IsDir(MoveTree(fs, t, BackupPath(t)), Parent(BackupPath(t)))
  {
    var u := BackupPath(t);
    var q := Parent(t);
    assert IsDir(fs, q);
    if q != [] {
      assert !HasPrefix(q, t) && !HasPrefix(q, u);
    }
  }

  lemma MovedDeeperParent(fs: Fs, t: Path, k: Path)
    requires WellFormed(fs) && t != []
    requires k in MoveTree(fs, t, BackupPath(t)) && HasPrefix(k, BackupPath(t)) && |k| > |t|
    ensures IsDir(MoveTree(fs, t, BackupPath(t)), Parent(k))
  {
    var u := BackupPath(t);
    var rest := k[|u|..];
    MovedFrom(fs, t, u, k);
    Graft(u, rest);
    Graft(t, rest);
    var q0 := t + Parent(rest);
    Graft(t, Parent(rest));
    assert q0 in fs && fs[q0] == Dir by {
      assert IsDir(fs, Parent(t + rest));
    }
    MovedImage(fs, t, u, q0);
  }

  /** Sequence facts about a path grafted under another. */
  lemma Graft(t: Path, rest: Path)
    ensures HasPrefix(t + rest, t) && (t + rest)[|t|..] == rest
    ensures rest != [] ==> Parent(t + rest) == t + Parent(rest)
  {
    assert (t + rest)[..|t|] == t;
  }

  lemma MovedImage(fs: Fs, t: Path, u: Path, k0: Path)
    requires !HasPrefix(u, t) && !HasPrefix(t, u)
    requires k0 in fs && HasPrefix(k0, t)
    ensures u + k0[|t|..] in MoveTree(fs, t, u) && MoveTree(fs, t, u)[u + k0[|t|..]] == fs[k0]
  {
  }

  lemma KeptParent(fs: Fs, t: Path, k: Path)
    requires WellFormed(fs) && t != []
    requires k in MoveTree(fs, t, BackupPath(t)) && !HasPrefix(k, BackupPath(t)) && k != []
    ensures IsDir(MoveTree(fs, t, BackupPath(t)), Parent(k))
  {
    var u := BackupPath(t);
    var q := Parent(k);
    assert k in fs && !HasPrefix(k, t);
    if q != [] {
      assert q in fs && fs[q].Dir?;
      assert HasPrefix(q, t) ==> HasPrefix(k, t) by {
        if |t| <= |q| {
          assert k[..|t|] == q[..|t|];
        }
      }
      assert HasPrefix(q, u) ==> HasPrefix(k, u) by {
        if |u| <= |q| {
          assert k[..|u|] == q[..|u|];
        }
      }
    }
  }

  /**
   * `rm t` as the tool issues it (no `-r`): a file or a link goes, and nothing else
   * changes; a directory is refused and stays with everything below it.
   */
  function RmAsWritten(fs: Fs, t: Path): (r: Fs)
    ensures t in fs && fs[t].Dir? ==> r == fs
    ensures !(t in fs && fs[t].Dir?) ==> t !in r && forall k :: k != t ==> (k in r <==> k in fs)
    ensures forall k :: k in r ==> k in fs && r[k] == fs[k]
  {
    if t in fs && !fs[t].Dir? then fs - {t} else fs
  }

  /** Removal of `t` together with everything below it. */
  function RmTree(fs: Fs, t: Path): (r: Fs)
    ensures forall k :: k in r <==> k in fs && !HasPrefix(k, t)
    ensures forall k :: k in r ==> r[k] == fs[k]
  {
    map k | k in fs && !HasPrefix(k, t) :: fs[k]
  }

  /**
   * The plain `rm` and the recursive removal differ only on a directory: in a
   * well-formed filesystem nothing lies below a file, a link or an absent path.
   */
  lemma RemovalsAgree(fs: Fs, t: Path)
    requires WellFormed(fs) && t != [] && !(t in fs && fs[t].Dir?)
    ensures RmTree(fs, t) == RmAsWritten(fs, t)
  {
    forall k | k in fs && HasPrefix(k, t)
      ensures k == t
    {
      if k != t {
        WellFormedPrefix(fs, k, |t|);
      }
    }
    assert RmTree(fs, t).Keys == RmAsWritten(fs, t).Keys;
  }

  lemma RmTreeKeepsWellFormed(fs: Fs, t: Path)
    requires WellFormed(fs)
    ensures WellFormed(RmTree(fs, t))
  {
    var r := RmTree(fs, t);
    forall k | k in r && k != [] && Parent(k) != []
      ensures Parent(k) in r
    {
      var q := Parent(k);
      if |t| <= |q| {
        assert k[..|t|] == q[..|t|];
      }
    }
  }

  /** Removing files and links never leaves an entry outside a directory: nothing lies below them. */
  lemma RemoveNonDirsKeepsWellFormed(fs: Fs, gone: set<Path>)
    requires WellFormed(fs) && forall q :: q in gone ==> q in fs && !fs[q].Dir?
    ensures WellFormed(fs - gone)
  {
  }
}
