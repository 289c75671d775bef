/**
 * The decisions of the symlink reconciler, as functions of the filesystem: where an
 * item of the dotfiles tree is linked to, what state its target is in, what the
 * conflict prompt answers for a sequence of keypresses, and what each action does to
 * the filesystem. The `DotFilesRepo` class in module `Repo` runs these step by step.
 */
module DotFiles {
  import opened Wrappers
  import opened Text
  import opened FileSystem
  import opened Walk
  import Logging

  /** What `sync` does with one target. */
  datatype Action = Skip | Backup | Update | Create | UpToDate

  /** The status word printed for an action. */
  function LabelOf(a: Action): Logging.Label {
    match a
    case Skip => Logging.Skip
    case Backup => Logging.Backup
    case Update => Logging.Update
    case Create => Logging.Create
    case UpToDate => Logging.UpToDate
  }

  /** The answers the prompt can give (and so the only values the sticky answer takes). */
  predicate Answerable(a: Action) {
    a == Skip || a == Backup || a == Update
  }

  // ---------------------------------------------------------------------------
  // Where an item is linked to
  // ---------------------------------------------------------------------------

  /** `s[:-len('.symlink')]`: the last eight characters dropped; Python's slice gives "" when there are fewer. */
  function DropMarker(s: string): (r: string)
    ensures |s| >= |Marker| ==> |r| == |s| - |Marker| && r + s[|s| - |Marker|..] == s
    ensures |s| < |Marker| ==> r == ""
  {
    if |s| >= |Marker| then s[..|s| - |Marker|] else ""
  }

  /**
   * `compute_target`: for an item `topic/p1/.../pn` of the dotfiles tree, the path
   * `target_dir/.p1/p2/.../pn` with the `.symlink` suffix removed. The topic is dropped,
   * only the first kept segment gains a dot, only the last loses the suffix, and when
   * there is one kept segment both edits fall on it.
   */
  function ComputeTarget(targetDir: Path, rel: seq<string>): (t: Path)
    requires |rel| >= 2
    ensures |t| == |targetDir| + |rel| - 1 && t[..|targetDir|] == targetDir
    ensures |rel| == 2 ==> t[|targetDir|] == DropMarker("." + rel[1])
    ensures |rel| > 2 ==> t[|targetDir|] == "." + rel[1] && t[|t| - 1] == DropMarker(rel[|rel| - 1])
    ensures forall i :: 2 <= i < |rel| - 1 ==> t[|targetDir| + i - 1] == rel[i]
  {
    var parts := rel[1..];
    var dotted := parts[0 := "." + parts[0]];
    targetDir + dotted[|dotted| - 1 := DropMarker(dotted[|dotted| - 1])]
  }

  /** The item a target was computed from, given its topic: the inverse of `ComputeTarget`. */
  function SourceItem(topic: string, targetDir: Path, t: Path): seq<string>
    requires |t| > |targetDir|
  {
    var parts := t[|targetDir|..];
    var suffixed := parts[|parts| - 1 := parts[|parts| - 1] + Marker];
    [topic] + suffixed[0 := if suffixed[0] == "" then "" else suffixed[0][1..]]
  }

  /**
   * Computing the target loses nothing but the topic: the item is recovered from its
   * target and topic, so two items of one topic never share a target.
   */
  lemma TargetRoundTrip(targetDir: Path, rel: seq<string>)
    requires |rel| >= 2 && IsMarked(rel[|rel| - 1])
    ensures SourceItem(rel[0], targetDir, ComputeTarget(targetDir, rel)) == rel
  {
    var parts := rel[1..];
    var dotted := parts[0 := "." + parts[0]];
    var edited := dotted[|dotted| - 1 := DropMarker(dotted[|dotted| - 1])];
    var t := targetDir + edited;
    assert t[|targetDir|..] == edited;
    var last := dotted[|dotted| - 1];
    assert DropMarker(last) + Marker == last by {
      assert |last| >= |Marker|;
      assert last[|last| - |Marker|..] == Marker;
    }
    var suffixed := edited[|edited| - 1 := edited[|edited| - 1] + Marker];
    assert suffixed == dotted;
    assert dotted[0][1..] == parts[0];
    assert [rel[0]] + dotted[0 := parts[0]] == rel;
  }

  /**
   * An item named just `.symlink` loses its whole name: directly below a topic it gives
   * the segment `.` (the target directory itself), deeper down an empty last segment
   * (the target is its directory, written with a trailing `/`). The model keeps such
   * segments literally.
   */
  lemma BareMarkerTarget(targetDir: Path, topic: string, dirs: seq<string>)
    ensures ComputeTarget(targetDir, [topic, Marker]) == targetDir + ["."]
    ensures dirs != [] ==> ComputeTarget(targetDir, [topic] + dirs + [Marker]) == targetDir + ["." + dirs[0]] + dirs[1..] + [""]
  {
    assert DropMarker("." + Marker) == ".";
    assert DropMarker(Marker) == "";
    if dirs != [] {
      var rel := [topic] + dirs + [Marker];
      var t := ComputeTarget(targetDir, rel);
      var want := targetDir + ["." + dirs[0]] + dirs[1..] + [""];
      assert |t| == |want|;
      forall i | 0 <= i < |t|
        ensures t[i] == want[i]
      {
        if i >= |targetDir| + 1 && i < |t| - 1 {
          assert t[i] == rel[i - |targetDir| + 1];
        }
      }
    }
  }

  /** Items of different topics with the same path below the topic share one target. */
  lemma TopicsShareTargets(targetDir: Path, a: string, b: string, rest: seq<string>)
    requires |rest| >= 1
    ensures ComputeTarget(targetDir, [a] + rest) == ComputeTarget(targetDir, [b] + rest)
  {
    assert ([a] + rest)[1..] == rest == ([b] + rest)[1..];
  }

  // ---------------------------------------------------------------------------
  // How a target is reported
  // ---------------------------------------------------------------------------

  /** The reported form of a target: the home directory shortened to `~` when the target lies below it. */
  function Abbreviate(target: string, home: string): (r: string)
    ensures StartsWith(target, home + "/") ==> StartsWith(r, "~/") && |r| == |target| - |home| + 1
    ensures !StartsWith(target, home + "/") ==> r == target
  {
    if StartsWith(target, home + "/") then "~" + target[|home|..] else target
  }

  /** The shell's reading of a leading `~/`. */
  function Expand(s: string, home: string): string {
    if StartsWith(s, "~/") then home + s[1..] else s
  }

  /** Expanding the reported form of an absolute target gives the target back. */
  lemma AbbreviateRoundTrip(target: string, home: string)
    requires StartsWith(target, "/")
    ensures Expand(Abbreviate(target, home), home) == target
  {
    if StartsWith(target, home + "/") {
      var r := Abbreviate(target, home);
      assert r[1..] == target[|home|..];
      assert target[..|home|] == (home + "/")[..|home|] == home;
      assert home + target[|home|..] == target;
    } else {
      assert target[0] == '/';
    }
  }

  // ---------------------------------------------------------------------------
  // What state a target is in
  // ---------------------------------------------------------------------------

  /** The four states of a target, in the order `sync` tests them. */
  datatype Kind = Current | Stale | Missing | Occupied

  /**
   * A link whose text is the source is current; any other link (a broken one
   * included) is stale; a path that does not exist is missing; anything else, a
   * regular file or a directory, is occupied and goes to the prompt. The link's text
   * is compared as written, never resolved.
   */
  function Classify(fs: Fs, t: Path, source: string): (k: Kind)
    ensures k == Current <==> t in fs && fs[t] == Link(source)
    ensures k == Stale <==> t in fs && fs[t].Link? && fs[t].dest != source
    ensures k == Missing <==> t !in fs
    ensures k == Occupied <==> t in fs && (fs[t].File? || fs[t].Dir?)
  {
    if IsLink(fs, t) then
      if fs[t].dest == source then Current else Stale
    else if !Exists(fs, t) then Missing
    else Occupied
  }

  // ---------------------------------------------------------------------------
  // The conflict prompt
  // ---------------------------------------------------------------------------

  /** A key the prompt accepts: `s`, `b` or `u` in either case. */
  predicate Accepted(c: char) {
    var l := Lower(c);
    l == 's' || l == 'b' || l == 'u'
  }

  /** The answer an accepted key stands for: `mapping[key.lower()].split()[0]`. */
  function Choice(c: char): (a: Action)
    requires Accepted(c)
    ensures Answerable(a)
    ensures Lower(c) == 's' <==> a == Skip
    ensures Lower(c) == 'b' <==> a == Backup
    ensures Lower(c) == 'u' <==> a == Update
  {
    var l := Lower(c);
    if l == 's' then Skip else if l == 'b' then Backup else Update
  }

  /** Where the first accepted key is, if any: the prompt reads up to and including it. */
  function FirstAccepted(keys: seq<char>): (r: Option<nat>)
    ensures r.Some? ==> r.value < |keys| && Accepted(keys[r.value])
    ensures r.Some? ==> forall j :: 0 <= j < r.value ==> !Accepted(keys[j])
    ensures r.None? ==> forall j :: 0 <= j < |keys| ==> !Accepted(keys[j])
  {
    if keys == [] then None
    else if Accepted(keys[0]) then Some(0)
    else
      match FirstAccepted(keys[1..])
      case None => None
      case Some(i) => Some(i + 1)
  }

  /** An answer of the prompt, with the sticky answer and the keys left afterwards. */
  datatype Answer = Answer(action: Action, global: Option<Action>, keys: seq<char>)

  /**
   * `get_action`: the sticky answer when there is one, reading no key; otherwise the
   * first accepted key, which becomes sticky when it is upper case. `None` when the
   * keys run out first: the prompt then waits for ever.
   */
  function Ask(global: Option<Action>, keys: seq<char>): Option<Answer> {
    if global.Some? then Some(Answer(global.value, global, keys))
    else
      match FirstAccepted(keys)
      case None => None
      case Some(i) =>
        var a := Choice(keys[i]);
        Some(Answer(a, if IsUpper(keys[i]) then Some(a) else global, keys[i + 1..]))
  }

  /**
   * The prompt's promises: a sticky answer is returned without reading; otherwise the
   * keys read are rejected keys followed by one accepted key, whose answer is returned
   * and becomes sticky exactly when the key is upper case. The answer is always skip,
   * backup or update, and the prompt blocks only with no sticky answer and no
   * accepted key left.
   */
  lemma AskAnswers(global: Option<Action>, keys: seq<char>)
    requires global.Some? ==> Answerable(global.value)
    ensures global.Some? ==> Ask(global, keys) == Some(Answer(global.value, global, keys))
    ensures Ask(global, keys).None? <==> global.None? && forall j :: 0 <= j < |keys| ==> !Accepted(keys[j])
    ensures Ask(global, keys).Some? ==> Answerable(Ask(global, keys).value.action)
    ensures Ask(global, keys).Some? && global.None? ==>
              var a := Ask(global, keys).value;
              exists n :: 0 <= n < |keys| && Accepted(keys[n]) && a.keys == keys[n + 1..]
                && (forall j :: 0 <= j < n ==> !Accepted(keys[j]))
                && a.action == Choice(keys[n])
                && (IsUpper(keys[n]) ==> a.global == Some(a.action))
                && (!IsUpper(keys[n]) ==> a.global == None)
  {
    if global.None? {
      var r := FirstAccepted(keys);
      if r.None? {
        assert Ask(global, keys).None?;
      } else {
        assert Ask(global, keys).Some?;
      }
    }
  }

  // ---------------------------------------------------------------------------
  // What the actions do to the filesystem
  // ---------------------------------------------------------------------------

  /** The shell commands the reconciler issues. */
  datatype Command = Mkdir(dir: Path) | Ln(source: Path, target: Path) | Mv(from: Path, to: Path) | Rm(path: Path, recursive: bool)

  /** The only move the reconciler issues is the one to the backup name. */
  predicate Runnable(cmd: Command) {
    cmd.Mv? ==> cmd.from != [] && cmd.to == BackupPath(cmd.from)
  }

  /** What a command does to the filesystem when it is run. */
  function Effect(fs: Fs, cmd: Command): Fs
    requires Runnable(cmd)
  {
    match cmd
    case Mkdir(d) => MkdirP(fs, d)
    case Ln(s, t) => LnS(fs, s, t)
    case Mv(t, u) => MoveTree(fs, t, u)
    case Rm(t, recursive) => if recursive then RmTree(fs, t) else RmAsWritten(fs, t)
  }

  /** Every command leaves every entry in a directory. */
  lemma EffectKeepsWellFormed(fs: Fs, cmd: Command)
    requires WellFormed(fs) && Runnable(cmd)
    ensures WellFormed(Effect(fs, cmd))
  {
    match cmd
    case Mkdir(d) => MkdirPKeepsWellFormed(fs, d);
    case Ln(src, t) => LnSKeepsWellFormed(fs, src, t);
    case Mv(t, u) => MoveBackupKeepsWellFormed(fs, t);
    case Rm(t, recursive) =>
      if recursive {
        RmTreeKeepsWellFormed(fs, t);
      } else if t in fs && !fs[t].Dir? {
        RemoveNonDirsKeepsWellFormed(fs, {t});
      }
  }

  /**
   * `link_source_to_target`: `mkdir -p` the target's directory, then `ln -s`. A target
   * that was absent, on a way with no file or link in it, becomes a link whose text is
   * the source; nothing present changes, and the only other new entries are the
   * directories on the way to the target.
   */
  function LinkEffect(fs: Fs, src: Path, t: Path): (r: Fs)
    requires t != []
    ensures t !in fs && Clear(fs, Parent(t)) ==> t in r && r[t] == Link(Render(src))
    ensures t !in fs ==> forall k :: k in fs ==> k in r && r[k] == fs[k]
    ensures t !in fs ==> forall k :: k in r && k !in fs ==> k == t || (k in Ancestry(Parent(t)) && r[k] == Dir)
  {
    var made := Effect(fs, Mkdir(Parent(t)));
    assert t !in fs ==> t !in made by {
      assert forall k :: k in Ancestry(Parent(t)) ==> |k| < |t|;
    }
    assert Clear(fs, Parent(t)) ==> IsDir(made, Parent(t)) by {
      if Clear(fs, Parent(t)) && Parent(t) != [] {
        assert Parent(t)[..|Parent(t)|] == Parent(t);
      }
    }
    Effect(made, Ln(src, t))
  }

  /**
   * When a file or a link lies on the way to an absent target, `mkdir -p` fails and so
   * does `ln -s`: nothing changes.
   */
  lemma LinkEffectBlocked(fs: Fs, src: Path, t: Path)
    requires t != [] && t !in fs && WellFormed(fs) && !Clear(fs, Parent(t))
    ensures LinkEffect(fs, src, t) == fs
  {
    MkdirPBlocked(fs, Parent(t));
    if IsDir(fs, Parent(t)) {
      DirClear(fs, Parent(t));
    }
  }

  lemma LinkEffectKeepsWellFormed(fs: Fs, src: Path, t: Path)
    requires t != [] && WellFormed(fs)
    ensures WellFormed(LinkEffect(fs, src, t))
  {
    EffectKeepsWellFormed(fs, Mkdir(Parent(t)));
    EffectKeepsWellFormed(Effect(fs, Mkdir(Parent(t))), Ln(src, t));
  }

  /**
   * What `sync` does for an action (lib/__init__.py:262-270), with `run` applying each
   * command only outside a dry run. `update` removes the target with everything below
   * it; `ReconcileAsWritten` is the plain `rm` the code issues.
   */
  function Reconcile(fs: Fs, action: Action, src: Path, t: Path, dryRun: bool): (r: Fs)
    requires t != []
    ensures dryRun || action == Skip || action == UpToDate ==> r == fs
    ensures forall k :: k in fs && !HasPrefix(k, t) && !HasPrefix(k, BackupPath(t)) ==> k in r && r[k] == fs[k]
  {
    if dryRun then fs
    else
      match action
      case Skip => fs
      case UpToDate => fs
      case Backup => LinkEffect(Effect(fs, Mv(t, BackupPath(t))), src, t)
      case Update => LinkEffect(Effect(fs, Rm(t, true)), src, t)
      case Create => LinkEffect(fs, src, t)
  }

  /** The same with `remove_file` as written: `rm` without `-r`, which refuses a directory. */
  function ReconcileAsWritten(fs: Fs, action: Action, src: Path, t: Path, dryRun: bool): (r: Fs)
    requires t != []
    ensures !(action == Update && !dryRun) ==> r == Reconcile(fs, action, src, t, dryRun)
    ensures WellFormed(fs) && !(t in fs && fs[t].Dir?) ==> r == Reconcile(fs, action, src, t, dryRun)
  {
    assert WellFormed(fs) && !(t in fs && fs[t].Dir?) ==> RmTree(fs, t) == RmAsWritten(fs, t) by {
      if WellFormed(fs) && !(t in fs && fs[t].Dir?) {
        RemovalsAgree(fs, t);
      }
    }
    if !dryRun && action == Update then LinkEffect(Effect(fs, Rm(t, false)), src, t)
    else Reconcile(fs, action, src, t, dryRun)
  }

  /**
   * A second look finds the work done: after a backup, an update or a create (the last
   * on a missing target, as classification guarantees), the target is a link whose
   * text is the source, so the next `sync` reports it up to date, exactly when no file
   * or link lies on the way to the target. That is always so for a target that was
   * there: only a create can be blocked.
   */
  lemma ReconcileLinks(fs: Fs, action: Action, src: Path, t: Path)
    requires t != [] && WellFormed(fs) && (action == Backup || action == Update || action == Create)
    requires action == Create ==> t !in fs
    ensures Classify(Reconcile(fs, action, src, t, false), t, Render(src)) == Current <==> Clear(fs, Parent(t))
    ensures t in fs ==> Classify(Reconcile(fs, action, src, t, false), t, Render(src)) == Current
  {
    if action == Create {
      LinkEffectLinks(fs, src, t);
    } else {
      var cmd := if action == Backup then Mv(t, BackupPath(t)) else Rm(t, true);
      var before := Effect(fs, cmd);
      EffectKeepsWellFormed(fs, cmd);
      ClearedAside(fs, cmd, t);
      LinkEffectLinks(before, src, t);
    }
    if t in fs {
      WellFormedClear(fs, t);
    }
  }

  /** On a target that is absent, linking succeeds exactly when the way to it is clear. */
  lemma LinkEffectLinks(fs: Fs, src: Path, t: Path)
    requires t != [] && t !in fs && WellFormed(fs)
    ensures Classify(LinkEffect(fs, src, t), t, Render(src)) == Current <==> Clear(fs, Parent(t))
  {
    if !Clear(fs, Parent(t)) {
      LinkEffectBlocked(fs, src, t);
    }
  }

  /** Moving the target aside, or removing it, clears its path and leaves the way to it as it was. */
  lemma ClearedAside(fs: Fs, cmd: Command, t: Path)
    requires t != [] && (cmd == Mv(t, BackupPath(t)) || cmd == Rm(t, true))
    ensures t !in Effect(fs, cmd)
    ensures Clear(fs, Parent(t)) <==> Clear(Effect(fs, cmd), Parent(t))
  {
    var after := Effect(fs, cmd);
    assert HasPrefix(t, t);
    forall k | 1 <= k <= |Parent(t)|
      ensures (Parent(t)[..k] in fs <==> Parent(t)[..k] in after)
      ensures Parent(t)[..k] in fs ==> fs[Parent(t)[..k]] == after[Parent(t)[..k]]
    {
      var q := Parent(t)[..k];
      assert !HasPrefix(q, t) && !HasPrefix(q, BackupPath(t));
    }
    ClearAlike(fs, after, Parent(t));
  }

  /**
   * Nothing outside the target's subtree (and, for a backup, the backup's subtree)
   * changes; skip and up to date change nothing at all, and neither does a dry run.
   */
  lemma ReconcileKeepsOthers(fs: Fs, action: Action, src: Path, t: Path, dryRun: bool, k: Path)
    requires t != [] && k in fs && !HasPrefix(k, t)
    requires action == Create ==> t !in fs
    requires action == Backup ==> !HasPrefix(k, BackupPath(t))
    ensures k in Reconcile(fs, action, src, t, dryRun) && Reconcile(fs, action, src, t, dryRun)[k] == fs[k]
    ensures dryRun || action == Skip || action == UpToDate ==> Reconcile(fs, action, src, t, dryRun) == fs
  {
    if !dryRun && action == Backup {
      var moved := MoveTree(fs, t, BackupPath(t));
      assert HasPrefix(t, t);
      assert k in moved && moved[k] == fs[k];
    } else if !dryRun && action == Update {
      assert HasPrefix(t, t);
    }
  }

  /**
   * The only entries an action adds are the target, the directories on the way to it,
   * and for a backup the moved entries under the backup name.
   */
  lemma ReconcileAddsOnly(fs: Fs, action: Action, src: Path, t: Path, k: Path)
    requires t != [] && (action == Create ==> t !in fs)
    requires k in Reconcile(fs, action, src, t, false) && k !in fs
    ensures k == t || k in Ancestry(Parent(t)) || (action == Backup && HasPrefix(k, BackupPath(t)))
  {
    if action == Backup {
      var moved := MoveTree(fs, t, BackupPath(t));
      assert HasPrefix(t, t);
    } else if action == Update {
      assert HasPrefix(t, t);
    }
  }

  /**
   * As written, answering "update" for a directory leaves the directory in place: `rm`
   * refuses it, and `ln -s` then puts the link inside it under the source's name. The
   * target is still occupied, so the next `sync` asks again.
   */
  lemma UpdateAsWrittenNestsLink(fs: Fs, src: Path, t: Path)
    requires t != [] && src != [] && t in fs && fs[t].Dir? && t + [src[|src| - 1]] !in fs
    ensures var r := ReconcileAsWritten(fs, Update, src, t, false);
            r[t] == Dir && r[t + [src[|src| - 1]]] == Link(Render(src)) && Classify(r, t, Render(src)) == Occupied
  {
    var made := MkdirP(fs, Parent(t));
    assert made[t] == Dir;
  }

  /** With the removal made recursive, the same answer replaces the directory by the link. */
  lemma UpdateReplacesDirectory(fs: Fs, src: Path, t: Path)
    requires t != [] && t in fs && fs[t].Dir? && WellFormed(fs)
    ensures var r := Reconcile(fs, Update, src, t, false);
            r[t] == Link(Render(src)) && Classify(r, t, Render(src)) == Current
            && forall k :: k in r && HasPrefix(k, t) ==> k == t
  {
    ReconcileLinks(fs, Update, src, t);
    var gone := RmTree(fs, t);
    assert HasPrefix(t, t);
  }

  // ---------------------------------------------------------------------------
  // One item of `sync`, and a whole run
  // ---------------------------------------------------------------------------

  /** The settings of a repository: the two directories, the walk depth, dry run, the home directory's text. */
  datatype Config = Config(sourceDir: Path, targetDir: Path, walkDepth: int, dryRun: bool, home: string)

  /** What `sync` changes as it goes: the filesystem, the sticky answer, the unread keys, the printed lines. */
  datatype State = State(fs: Fs, global: Option<Action>, keys: seq<char>, out: seq<Logging.Line<string>>)

  /** The action for a target in state `k`, asking only when it is occupied. */
  function Decide(k: Kind, global: Option<Action>, keys: seq<char>): Option<Answer> {
    match k
    case Current => Some(Answer(UpToDate, global, keys))
    case Stale => Some(Answer(Update, global, keys))
    case Missing => Some(Answer(Create, global, keys))
    case Occupied => Ask(global, keys)
  }

  /**
   * One item of `sync` (lib/__init__.py:241-270): classify its target, decide, report
   * the action and the abbreviated target, then act. `None` when the prompt is left
   * waiting for a key.
   */
  function Step(c: Config, pad: nat, s: State, rel: seq<string>): Option<State>
    requires |rel| >= 2
  {
    var src := c.sourceDir + rel;
    var t := ComputeTarget(c.targetDir, rel);
    match Decide(Classify(s.fs, t, Render(src)), s.global, s.keys)
    case None => None
    case Some(a) =>
      Some(State(Reconcile(s.fs, a.action, src, t, c.dryRun), a.global, a.keys,
                 s.out + [Logging.Line(pad, LabelOf(a.action), Abbreviate(Render(t), c.home))]))
  }

  /** The state after the items, and whether the prompt was left waiting (all keys read). */
  datatype Progress = Progress(state: State, halted: bool)

  predicate Items(rels: seq<seq<string>>) {
    forall i :: 0 <= i < |rels| ==> |rels[i]| >= 2
  }

  /** The items of `sync` one after another, stopping for good at a prompt left waiting. */
  function SyncItems(c: Config, pad: nat, s: State, rels: seq<seq<string>>): Progress
    requires Items(rels)
    decreases |rels|
  {
    if rels == [] then Progress(s, false)
    else
      match Step(c, pad, s, rels[0])
      case None => Progress(s.(keys := []), true)
      case Some(s') => SyncItems(c, pad, s', rels[1..])
  }

  /**
   * One item prints one line, reports the action taken on its target, and keeps the
   * sticky answer one the prompt can give. It halts only at an occupied target with
   * no sticky answer and no accepted key left.
   */
  lemma StepReports(c: Config, pad: nat, s: State, rel: seq<string>)
    requires |rel| >= 2
    requires s.global.Some? ==> Answerable(s.global.value)
    ensures var t := ComputeTarget(c.targetDir, rel);
            var k := Classify(s.fs, t, Render(c.sourceDir + rel));
            && (Step(c, pad, s, rel).None? <==> k == Occupied && s.global.None? && forall j :: 0 <= j < |s.keys| ==> !Accepted(s.keys[j]))
            && (Step(c, pad, s, rel).Some? ==>
                  var s' := Step(c, pad, s, rel).value;
                  && |s'.out| == |s.out| + 1 && s'.out[..|s.out|] == s.out
                  && (s'.global.Some? ==> Answerable(s'.global.value))
                  && (k == Current <==> s'.out[|s.out|].status == Logging.UpToDate)
                  && (k == Stale ==> s'.out[|s.out|].status == Logging.Update)
                  && (k == Missing <==> s'.out[|s.out|].status == Logging.Create))
  {
    AskAnswers(s.global, s.keys);
  }

  /** Under a dry run the items leave the filesystem as it was, whatever is printed. */
  lemma {:induction false} DryRunKeepsFs(c: Config, pad: nat, s: State, rels: seq<seq<string>>)
    requires c.dryRun && Items(rels)
    ensures SyncItems(c, pad, s, rels).state.fs == s.fs
    decreases |rels|
  {
    if rels != [] {
      match Step(c, pad, s, rels[0])
      case None =>
      case Some(s') =>
        assert s'.fs == s.fs;
        DryRunKeepsFs(c, pad, s', rels[1..]);
    }
  }

  /** A run that does not halt reads no keys beyond the ones it answers with, and prints one line per item. */
  lemma {:induction false} SyncItemsPrints(c: Config, pad: nat, s: State, rels: seq<seq<string>>)
    requires Items(rels)
    ensures var p := SyncItems(c, pad, s, rels);
            && |s.out| <= |p.state.out| <= |s.out| + |rels| && p.state.out[..|s.out|] == s.out
            && (!p.halted ==> |p.state.out| == |s.out| + |rels|)
            && (p.halted ==> p.state.keys == [])
    decreases |rels|
  {
    if rels != [] {
      match Step(c, pad, s, rels[0])
      case None =>
      case Some(s') =>
        SyncItemsPrints(c, pad, s', rels[1..]);
        var p := SyncItems(c, pad, s', rels[1..]);
        assert |s'.out| == |s.out| + 1 && s'.out[..|s.out|] == s.out;
        assert p.state.out[..|s.out|] == p.state.out[..|s'.out|][..|s.out|];
    }
  }

  /** Every action, and so every item and every run of items, leaves every entry in a directory. */
  lemma ReconcileKeepsWellFormed(fs: Fs, action: Action, src: Path, t: Path, dryRun: bool)
    requires t != [] && WellFormed(fs)
    ensures WellFormed(Reconcile(fs, action, src, t, dryRun))
  {
    if !dryRun && (action == Backup || action == Update) {
      var cmd := if action == Backup then Mv(t, BackupPath(t)) else Rm(t, true);
      EffectKeepsWellFormed(fs, cmd);
      LinkEffectKeepsWellFormed(Effect(fs, cmd), src, t);
    } else if !dryRun && action == Create {
      LinkEffectKeepsWellFormed(fs, src, t);
    }
  }

  lemma {:induction false} SyncItemsKeepsWellFormed(c: Config, pad: nat, s: State, rels: seq<seq<string>>)
    requires Items(rels) && WellFormed(s.fs)
    ensures WellFormed(SyncItems(c, pad, s, rels).state.fs)
    decreases |rels|
  {
    if rels != [] {
      match Step(c, pad, s, rels[0])
      case None =>
      case Some(s') =>
        var a := Decide(Classify(s.fs, ComputeTarget(c.targetDir, rels[0]), Render(c.sourceDir + rels[0])), s.global, s.keys).value;
        ReconcileKeepsWellFormed(s.fs, a.action, c.sourceDir + rels[0], ComputeTarget(c.targetDir, rels[0]), c.dryRun);
        SyncItemsKeepsWellFormed(c, pad, s', rels[1..]);
    }
  }

  /** An item's actions never reach `p`: it lies neither below the target nor below its backup name. */
  predicate Untouched(p: Path, t: Path) {
    t != [] && !HasPrefix(p, t) && !HasPrefix(p, BackupPath(t))
  }

  /** No item's actions reach `p`. */
  predicate UntouchedBy(c: Config, p: Path, rels: seq<seq<string>>)
    requires Items(rels)
  {
    forall j :: 0 <= j < |rels| ==> Untouched(p, ComputeTarget(c.targetDir, rels[j]))
  }

  /** An entry no item reaches is still there, unchanged, after the items. */
  lemma {:induction false} SyncItemsKeepsPresent(c: Config, pad: nat, s: State, rels: seq<seq<string>>, p: Path)
    requires Items(rels) && (s.global.Some? ==> Answerable(s.global.value))
    requires Present(s.fs, p) && UntouchedBy(c, p, rels)
    ensures Present(SyncItems(c, pad, s, rels).state.fs, p)
    ensures SyncItems(c, pad, s, rels).state.fs[p] == s.fs[p]
    decreases |rels|
  {
    if rels != [] {
      match Step(c, pad, s, rels[0])
      case None =>
      case Some(s') =>
        var src := c.sourceDir + rels[0];
        var t := ComputeTarget(c.targetDir, rels[0]);
        var a := Decide(Classify(s.fs, t, Render(src)), s.global, s.keys).value;
        AskAnswers(s.global, s.keys);
        assert Untouched(p, t);
        ReconcileKeepsOthers(s.fs, a.action, src, t, c.dryRun, p);
        StepReports(c, pad, s, rels[0]);
        assert UntouchedBy(c, p, rels[1..]) by {
          forall j | 0 <= j < |rels[1..]|
            ensures Untouched(p, ComputeTarget(c.targetDir, rels[1..][j]))
          {
            assert rels[1..][j] == rels[j + 1];
          }
        }
        SyncItemsKeepsPresent(c, pad, s', rels[1..], p);
    }
  }

  /**
   * The links `sync` leaves survive `clean`: once the items are done, a link whose text
   * names one of the items' sources, which is present and which no item reaches, is
   * not broken, so `clean` does not remove it. The source text of an item at the top
   * of the tree holds a `.` segment (`RootSource`); the path it stands for is the one
   * that must be present.
   */
  lemma SyncedLinkSurvivesClean(c: Config, pad: nat, s: State, rels: seq<seq<string>>, i: nat, k: Path)
    requires Items(rels) && (s.global.Some? ==> Answerable(s.global.value)) && i < |rels|
    requires var src := c.sourceDir + rels[i];
             Slashless(src) && Present(s.fs, Normalize([], src)) && UntouchedBy(c, Normalize([], src), rels)
    requires var fs := SyncItems(c, pad, s, rels).state.fs;
             k != [] && k in fs && fs[k] == Link(Render(c.sourceDir + rels[i]))
    ensures var fs := SyncItems(c, pad, s, rels).state.fs;
            Exists(fs, k) && k !in BrokenChildren(fs, c.targetDir)
  {
    var src := c.sourceDir + rels[i];
    var fs := SyncItems(c, pad, s, rels).state.fs;
    SyncItemsKeepsPresent(c, pad, s, rels, Normalize([], src));
    LinkToPresentExists(fs, k, src);
  }

  /**
   * The source text of an item at the top of the tree is `source_dir/./name`, which
   * stands for `source_dir/name`; an item deeper down names its path literally.
   */
  lemma RootSource(sourceDir: Path, x: Found)
    requires PlainPath(sourceDir) && PlainPath(x.dirs) && PlainSegment(x.name)
    ensures Slashless(sourceDir + RelPath(x))
    ensures Normalize([], sourceDir + RelPath(x)) == sourceDir + x.dirs + [x.name]
  {
    if x.dirs == [] {
      NormalizeDot([], sourceDir, [x.name]);
      assert sourceDir + RelPath(x) == sourceDir + ["."] + [x.name];
    } else {
      NormalizePlain([], sourceDir + x.dirs + [x.name]);
      assert sourceDir + RelPath(x) == sourceDir + x.dirs + [x.name];
    }
  }

  // ---------------------------------------------------------------------------
  // Around the items: the marker file and the cleanup
  // ---------------------------------------------------------------------------

  /** Where `sync` records the location of the dotfiles tree. */
  function MarkerPath(targetDir: Path): Path {
    targetDir + [".dotfiles-dir"]
  }

  /**
   * Writing the marker (skipped under a dry run): the source directory's text as a
   * regular file; `None` when `open` fails, because a directory is in the way or the
   * target directory is not a directory.
   */
  function WriteMarker(c: Config, fs: Fs): (r: Option<Fs>)
    ensures c.dryRun ==> r == Some(fs)
    ensures !c.dryRun ==> (r.None? <==> (MarkerPath(c.targetDir) in fs && fs[MarkerPath(c.targetDir)].Dir?) || !IsDir(fs, c.targetDir))
    ensures !c.dryRun && r.Some? ==> r.value == fs[MarkerPath(c.targetDir) := File(Render(c.sourceDir))]
  {
    var p := MarkerPath(c.targetDir);
    if c.dryRun then Some(fs)
    else if (p in fs && fs[p].Dir?) || !IsDir(fs, c.targetDir) then None
    else Some(fs[p := File(Render(c.sourceDir))])
  }

  lemma WriteMarkerKeepsWellFormed(c: Config, fs: Fs)
    requires WellFormed(fs)
    ensures WriteMarker(c, fs).Some? ==> WellFormed(WriteMarker(c, fs).value)
  {
    var p := MarkerPath(c.targetDir);
    if !c.dryRun && WriteMarker(c, fs).Some? {
      assert Parent(p) == c.targetDir;
      if p in fs {
        ReplaceKeepsWellFormed(fs, p, File(Render(c.sourceDir)));
      } else {
        AddKeepsWellFormed(fs, p, File(Render(c.sourceDir)));
      }
    }
  }

  /**
   * Outside a dry run `clean` can always list the target directory: writing the marker
   * needs the target directory to be one, and no item reaches it, since every target
   * and every backup name lies strictly below it.
   */
  lemma RealRunLists(c: Config, pad: nat, s: State, rels: seq<seq<string>>)
    requires Items(rels) && (s.global.Some? ==> Answerable(s.global.value)) && PlainPath(c.targetDir)
    requires !c.dryRun && WriteMarker(c, s.fs).Some?
    ensures IsDir(SyncItems(c, pad, s.(fs := WriteMarker(c, s.fs).value), rels).state.fs, c.targetDir)
  {
    var s0 := s.(fs := WriteMarker(c, s.fs).value);
    if c.targetDir != [] {
      assert MarkerPath(c.targetDir) != c.targetDir;
      assert Present(s0.fs, c.targetDir);
      forall j | 0 <= j < |rels|
        ensures Untouched(c.targetDir, ComputeTarget(c.targetDir, rels[j]))
      {
        var t := ComputeTarget(c.targetDir, rels[j]);
        assert |BackupPath(t)| == |t| > |c.targetDir|;
      }
      SyncItemsKeepsPresent(c, pad, s0, rels, c.targetDir);
    }
  }

  /** Removing the broken links `clean` finds leaves every entry in a directory. */
  lemma CleanKeepsWellFormed(fs: Fs, d: Path)
    requires WellFormed(fs)
    ensures WellFormed(fs - BrokenChildren(fs, d))
  {
    RemoveNonDirsKeepsWellFormed(fs, BrokenChildren(fs, d));
  }

  /** The entries `os.listdir(d)` names, as full paths. */
  function Children(fs: Fs, d: Path): set<Path> {
    set k | k in fs && |k| == |d| + 1 && k[..|d|] == d
  }

  /** The entries `clean` removes: the immediate children of `d` that are broken links. */
  function BrokenChildren(fs: Fs, d: Path): (r: set<Path>)
    ensures forall k :: k in r <==> k in fs && |k| == |d| + 1 && k[..|d|] == d && IsBroken(fs, k)
  {
    set k | k in Children(fs, d) && IsBroken(fs, k)
  }

  /** What `clean` prints for the removed paths, in the order it met them. */
  function RemovedLines(pad: nat, removed: seq<Path>): (r: seq<Logging.Line<string>>)
    ensures |r| == |removed|
  {
    if removed == [] then []
    else RemovedLines(pad, removed[..|removed| - 1]) + [Logging.Line(pad, Logging.Remove, Render(removed[|removed| - 1]))]
  }

  lemma RemovedLinesSnoc(out: seq<Logging.Line<string>>, pad: nat, removed: seq<Path>, k: Path)
    ensures out + RemovedLines(pad, removed + [k]) == (out + RemovedLines(pad, removed)) + [Logging.Line(pad, Logging.Remove, Render(k))]
  {
    assert (removed + [k])[..|removed|] == removed;
  }

  /**
   * How far `clean` has got: the children still to visit, the broken ones met so far
   * (each once), and the filesystem with those removed (except under a dry run).
   */
  ghost predicate CleanProgress(before: Fs, d: Path, dryRun: bool, todo: set<Path>, removed: seq<Path>, fs: Fs) {
    var gone := BrokenChildren(before, d);
    && todo <= Children(before, d)
    && (forall k :: k in removed ==> k in gone && k !in todo)
    && (forall k :: k in gone && k !in todo ==> k in removed)
    && (forall i, j :: 0 <= i < j < |removed| ==> removed[i] != removed[j])
    && fs == if dryRun then before else before - (gone - todo)
  }

  lemma CleanStart(before: Fs, d: Path, dryRun: bool)
    ensures CleanProgress(before, d, dryRun, Children(before, d), [], before)
  {
    assert before - {} == before;
  }

  /**
   * One child visited: it is broken in the filesystem as `clean` has left it exactly
   * when it was broken at the start, since removing broken links breaks no other link.
   */
  lemma CleanVisit(before: Fs, d: Path, dryRun: bool, todo: set<Path>, removed: seq<Path>, fs: Fs, path: Path)
    requires CleanProgress(before, d, dryRun, todo, removed, fs) && path in todo
    ensures IsBroken(fs, path) <==> path in BrokenChildren(before, d)
    ensures IsBroken(fs, path) ==> path in fs && !fs[path].Dir?
    ensures IsBroken(fs, path) ==> CleanProgress(before, d, dryRun, todo - {path}, removed + [path], if dryRun then fs else fs - {path})
    ensures !IsBroken(fs, path) ==> CleanProgress(before, d, dryRun, todo - {path}, removed, fs)
  {
    var gone := BrokenChildren(before, d);
    var done := gone - todo;
    RemoveBrokenKeepsExistence(before, done, path, MaxSymlinks);
    if path in gone {
      assert done + {path} == gone - (todo - {path});
      assert before - done - {path} == before - (done + {path});
    } else {
      assert done == gone - (todo - {path});
    }
  }

  /** Once every child has been visited, `clean` has done what it promises. */
  lemma CleanFinished(c: Config, pad: nat, before: State, removed: seq<Path>, fs: Fs, out: seq<Logging.Line<string>>)
    requires CleanProgress(before.fs, c.targetDir, c.dryRun, {}, removed, fs)
    requires out == before.out + RemovedLines(pad, removed)
    ensures Cleaned(c, pad, before, removed, fs, out)
  {
  }

  /** The items `sync` visits: nothing when the source is `/`, whose stripped text `os.walk` cannot list. */
  function Sources(c: Config, tree: seq<Entry>): seq<Found> {
    if c.sourceDir == [] then [] else Walk.Walk(tree, c.walkDepth)
  }

  /** The relative paths of the found items, as the generator yields them. */
  function Rels(found: seq<Found>): (r: seq<seq<string>>)
    ensures |r| == |found| && Items(r)
    ensures forall i :: 0 <= i < |found| ==> r[i] == RelPath(found[i])
  {
    if found == [] then [] else [RelPath(found[0])] + Rels(found[1..])
  }

  /**
   * What `clean` promises, for the order `removed` in which it met the broken links:
   * each broken immediate child of the target directory is met once, removed (except
   * under a dry run) and reported with its full path; nothing else changes.
   */
  ghost predicate Cleaned(c: Config, pad: nat, before: State, removed: seq<Path>, fs: Fs, out: seq<Logging.Line<string>>) {
    && (forall i, j :: 0 <= i < j < |removed| ==> removed[i] != removed[j])
    && (forall k :: k in removed <==> k in BrokenChildren(before.fs, c.targetDir))
    && fs == (if c.dryRun then before.fs else before.fs - BrokenChildren(before.fs, c.targetDir))
    && out == before.out + RemovedLines(pad, removed)
  }
}
