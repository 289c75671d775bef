/**
 * The `DotFilesRepo` object: the settings it is created with, the sticky answer of
 * the conflict prompt, and, standing in for the outside world, the filesystem it
 * changes and the keys the user will press. Each method is proved to do what the
 * functions of module `DotFiles` say.
 */
module Repo {
  import opened Wrappers
  import opened Text
  import opened FileSystem
  import opened Walk
  import opened DotFiles
  import Logging

  /**
   * How `sync` ends: the marker could not be written, the prompt waits for a key,
   * `os.listdir` in `clean` raised because the target directory is not one, or done
   * after `clean`.
   */
  datatype Outcome = Aborted | Halted | ListFailed | Done(removed: seq<Path>)

  class DotFilesRepo {
    const sourceDir: Path
    const targetDir: Path
    const walkDepth: int
    const dryRun: bool
    /** The text of the home directory, for the `~` abbreviation. */
    const home: string
    /** The module-level logger the reconciler reports through. */
    const log: Logging.Logger<string>
    var globalAction: Option<Action>
    var fs: Fs
    var keys: seq<char>

    constructor(sourceDir: Path, targetDir: Path, walkDepth: int, dryRun: bool, home: string,
                log: Logging.Logger<string>, fs: Fs, keys: seq<char>)
      requires WellFormed(fs)
      ensures Valid()
      ensures this.sourceDir == sourceDir && this.targetDir == targetDir && this.walkDepth == walkDepth
      ensures this.dryRun == dryRun && this.home == home && this.log == log
      ensures globalAction == None && this.fs == fs && this.keys == keys
    {
      this.sourceDir := sourceDir;
      this.targetDir := targetDir;
      this.walkDepth := walkDepth;
      this.dryRun := dryRun;
      this.home := home;
      this.log := log;
      globalAction := None;
      this.fs := fs;
      this.keys := keys;
    }

    function Settings(): Config {
      Config(sourceDir, targetDir, walkDepth, dryRun, home)
    }

    /** Everything a run can change, as one value. */
    function Now(): State
      reads this, log.term
    {
      State(fs, globalAction, keys, log.term.lines)
    }

    /** The sticky answer is one the prompt can give, and every entry lies in a directory. */
    predicate Valid()
      reads this
    {
      (globalAction.Some? ==> Answerable(globalAction.value)) && WellFormed(fs)
    }

    /** `run`: the command's effect, except under a dry run. */
    method Run(cmd: Command)
      requires Runnable(cmd)
      modifies this
      ensures fs == if dryRun then old(fs) else Effect(old(fs), cmd)
      ensures globalAction == old(globalAction) && keys == old(keys)
    {
      if !dryRun {
        fs := Effect(fs, cmd);
      }
    }

    /** `link_source_to_target`: `mkdir -p` the target's directory, then `ln -s`. */
    method LinkSourceToTarget(source: Path, target: Path)
      requires target != []
      modifies this
      ensures fs == if dryRun then old(fs) else LinkEffect(old(fs), source, target)
      ensures globalAction == old(globalAction) && keys == old(keys)
    {
      Run(Mkdir(Parent(target)));
      Run(Ln(source, target));
    }

    /** `backup_file`: move the target aside under the `.backup` name. */
    method BackupFile(target: Path)
      requires target != []
      modifies this
      ensures fs == if dryRun then old(fs) else Effect(old(fs), Mv(target, BackupPath(target)))
      ensures globalAction == old(globalAction) && keys == old(keys)
    {
      Run(Mv(target, BackupPath(target)));
    }

    /**
     * `remove_file`, with the removal made recursive: the plain `rm` the code issues
     * refuses a directory (see `ReconcileAsWritten` and `UpdateAsWrittenNestsLink`).
     */
    method RemoveFile(target: Path)
      modifies this
      ensures fs == if dryRun then old(fs) else Effect(old(fs), Rm(target, true))
      ensures globalAction == old(globalAction) && keys == old(keys)
    {
      Run(Rm(target, true));
    }

    /**
     * `get_action`: the sticky answer if there is one; otherwise read keys until one is
     * accepted, and make its answer sticky when it is upper case. `None` when the keys
     * run out first.
     */
    method GetAction() returns (r: Option<Action>)
      requires Valid()
      modifies this
      ensures Valid() && fs == old(fs)
      ensures match Ask(old(globalAction), old(keys))
              case None => r.None? && globalAction == old(globalAction) && keys == []
              case Some(a) => r == Some(a.action) && globalAction == a.global && keys == a.keys
    {
      if globalAction.Some? {
        return globalAction;
      }
      var action := ' ';
      ghost var n := 0;
      while !Accepted(action)
        invariant 0 <= n <= |old(keys)| && keys == old(keys)[n..]
        invariant n == 0 ==> action == ' '
        invariant n > 0 ==> action == old(keys)[n - 1]
        invariant forall j :: 0 <= j < n - 1 ==> !Accepted(old(keys)[j])
        invariant fs == old(fs) && globalAction == old(globalAction)
        decreases |keys|
      {
        if keys == [] {
          assert forall j :: 0 <= j < |old(keys)| ==> !Accepted(old(keys)[j]);
          assert FirstAccepted(old(keys)).None?;
          return None;
        }
        action := keys[0];
        keys := keys[1..];
        n := n + 1;
      }
      assert n > 0 by {
        assert !Accepted(' ');
      }
      assert FirstAccepted(old(keys)) == Some(n - 1);
      var val := Choice(action);
      if IsUpper(action) {
        globalAction := Some(val);
      }
      return Some(val);
    }

    /** The action for a target: from the state it is in, asking only when it is occupied. */
    method DecideAction(source: Path, target: Path) returns (r: Option<Action>)
      requires Valid()
      modifies this
      ensures Valid() && fs == old(fs)
      ensures match Decide(Classify(old(fs), target, Render(source)), old(globalAction), old(keys))
              case None => r.None? && globalAction == old(globalAction) && keys == []
              case Some(a) => r == Some(a.action) && globalAction == a.global && keys == a.keys
    {
      if IsLink(fs, target) {
        if fs[target].dest == Render(source) {
          r := Some(UpToDate);
        } else {
          r := Some(Update);
        }
      } else if !Exists(fs, target) {
        r := Some(Create);
      } else {
        r := GetAction();
      }
    }

    /** Carries out an action: back up or remove the target as it says, then link it. */
    method Act(action: Action, source: Path, target: Path)
      requires target != [] && Valid()
      modifies this
      ensures fs == Reconcile(old(fs), action, source, target, dryRun)
      ensures globalAction == old(globalAction) && keys == old(keys)
      ensures Valid()
    {
      ReconcileKeepsWellFormed(fs, action, source, target, dryRun);
      if action == Skip || action == UpToDate {
        return;
      } else if action == Backup {
        BackupFile(target);
      } else if action == Update {
        RemoveFile(target);
      }
      LinkSourceToTarget(source, target);
    }

    /** One item of `sync`: decide, report the action and the abbreviated target, act. */
    method SyncOne(rel: seq<string>) returns (halted: bool)
      requires |rel| >= 2 && Valid()
      modifies this, log.term
      ensures Valid()
      ensures var r := Step(Settings(), Logging.Pad(log.indent), old(Now()), rel);
              && (halted <==> r.None?)
              && (r.Some? ==> Now() == r.value)
              && (r.None? ==> Now() == old(Now()).(keys := []))
      ensures log.indent == old(log.indent)
    {
      var source := sourceDir + rel;
      var target := ComputeTarget(targetDir, rel);
      var answer := DecideAction(source, target);
      if answer.None? {
        return true;
      }
      log.SpacedStatus(LabelOf(answer.value), Abbreviate(Render(target), home));
      Act(answer.value, source, target);
      return false;
    }

    /** The items of `sync`, one after another, stopping for good when the prompt is left waiting. */
    method SyncAll(rels: seq<seq<string>>) returns (halted: bool)
      requires Items(rels) && Valid()
      modifies this, log.term
      ensures Valid()
      ensures SyncItems(Settings(), Logging.Pad(log.indent), old(Now()), rels) == Progress(Now(), halted)
      ensures log.indent == old(log.indent)
    {
      ghost var pad := Logging.Pad(log.indent);
      var i := 0;
      halted := false;
      while i < |rels| && !halted
        invariant 0 <= i <= |rels|
        invariant log.indent == old(log.indent) && Valid()
        invariant !halted ==> SyncItems(Settings(), pad, old(Now()), rels) == SyncItems(Settings(), pad, Now(), rels[i..])
        invariant halted ==> SyncItems(Settings(), pad, old(Now()), rels) == Progress(Now(), true)
      {
        assert rels[i..][1..] == rels[i + 1..];
        halted := SyncOne(rels[i]);
        i := i + 1;
      }
    }

    /** One entry of `clean`: a broken link is removed (except under a dry run) and reported. */
    method CleanEntry(path: Path) returns (broken: bool)
      modifies this, log.term
      ensures broken == IsBroken(old(fs), path)
      ensures fs == if broken && !dryRun then old(fs) - {path} else old(fs)
      ensures broken ==> log.term.lines == old(log.term.lines) + [Logging.Line(Logging.Pad(log.indent), Logging.Remove, Render(path))]
      ensures !broken ==> log.term.lines == old(log.term.lines)
      ensures globalAction == old(globalAction) && keys == old(keys) && log.indent == old(log.indent)
    {
      broken := IsBroken(fs, path);
      if broken {
        if !dryRun {
          Run(Rm(path, false));
        }
        log.SpacedStatus(Logging.Remove, Render(path));
      }
    }

    /**
     * `clean`: every immediate child of the target directory that is a broken link is
     * removed (except under a dry run) and reported with its full path. Children are
     * met in no particular order, as `os.listdir` gives them. `None` when the target
     * directory is missing or is no directory: `os.listdir` raises before anything is done.
     */
    method Clean() returns (removed: Option<seq<Path>>)
      requires Valid()
      modifies this, log.term
      ensures Valid()
      ensures removed.None? <==> !IsDir(old(fs), targetDir)
      ensures removed.None? ==> fs == old(fs) && log.term.lines == old(log.term.lines)
      ensures removed.Some? ==> Cleaned(Settings(), Logging.Pad(log.indent), old(Now()), removed.value, fs, log.term.lines)
      ensures globalAction == old(globalAction) && keys == old(keys)
    {
      if !IsDir(fs, targetDir) {
        return None;
      }
      var gone := CleanListed();
      return Some(gone);
    }

    /** The loop of `clean` over the listed children. */
    method CleanListed() returns (removed: seq<Path>)
      requires Valid()
      modifies this, log.term
      ensures Valid()
      ensures Cleaned(Settings(), Logging.Pad(log.indent), old(Now()), removed, fs, log.term.lines)
      ensures globalAction == old(globalAction) && keys == old(keys)
    {
      ghost var before := fs;
      ghost var pad := Logging.Pad(log.indent);
      var todo := Children(fs, targetDir);
      removed := [];
      CleanStart(before, targetDir, dryRun);
      assert log.term.lines == old(log.term.lines) + RemovedLines(pad, []);
      while todo != {}
        invariant CleanProgress(before, targetDir, dryRun, todo, removed, fs)
        invariant log.term.lines == old(log.term.lines) + RemovedLines(pad, removed)
        invariant log.indent == old(log.indent) && pad == Logging.Pad(log.indent)
        invariant globalAction == old(globalAction) && keys == old(keys)
        decreases |todo|
      {
        var path :| path in todo;
        CleanVisit(before, targetDir, dryRun, todo, removed, fs, path);
        todo := todo - {path};
        var broken := CleanEntry(path);
        if broken {
          RemovedLinesSnoc(old(log.term.lines), pad, removed, path);
          removed := removed + [path];
        }
      }
      CleanFinished(Settings(), pad, old(Now()), removed, fs, log.term.lines);
      CleanKeepsWellFormed(before, targetDir);
    }

    /**
     * `sync`: write the marker (not under a dry run), run every item the walk finds,
     * then `clean`, unless the prompt was left waiting. A dry run changes no entry.
     */
    method Sync(tree: seq<Entry>) returns (outcome: Outcome)
      requires Valid()
      modifies this, log.term
      ensures Valid()
      ensures var c := Settings();
              var start := WriteMarker(c, old(fs));
              && (start.None? <==> outcome == Aborted)
              && (start.None? ==> Now() == old(Now()))
              && (start.Some? ==>
                    var p := SyncItems(c, Logging.Pad(log.indent), old(Now()).(fs := start.value), Rels(Sources(c, tree)));
                    && globalAction == p.state.global && keys == p.state.keys
                    && (p.halted <==> outcome == Halted)
                    && (!p.halted ==> (outcome == ListFailed <==> !IsDir(p.state.fs, targetDir)))
                    && (p.halted || outcome == ListFailed ==> fs == p.state.fs && log.term.lines == p.state.out)
                    && (outcome.Done? ==> Cleaned(c, Logging.Pad(log.indent), p.state, outcome.removed, fs, log.term.lines)))
      ensures dryRun ==> fs == old(fs)
    {
      var c := Settings();
      var start := WriteMarker(c, fs);
      if start.None? {
        return Aborted;
      }
      WriteMarkerKeepsWellFormed(c, fs);
      fs := start.value;
      var found: seq<Found> := [];
      if sourceDir != [] {
        found := FindFilesToSymlink(tree, walkDepth);
      }
      ghost var s0 := Now();
      var halted := SyncAll(Rels(found));
      if dryRun {
        DryRunKeepsFs(c, Logging.Pad(log.indent), s0, Rels(found));
      }
      if halted {
        return Halted;
      }
      var removed := Clean();
      if removed.None? {
        return ListFailed;
      }
      return Done(removed.value);
    }
  }
}
