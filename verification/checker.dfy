/**
 * The `SystemChecker` object. It prints the identity checks through a logger of its
 * own and the categories through the shared module-level logger, whose indent the
 * `with log:` block of each checked category raises and lowers again; both write to
 * the same terminal. Each method is proved to print what the functions of module
 * `SystemCheck` say and to end with the same exception.
 */
module Checker {
  import opened Wrappers
  import opened Text
  import opened Document
  import opened SystemCheck
  import Logging

  class SystemChecker {
    /** `_logger`: the checker's own logger, made fresh with the checker. */
    const logger: Logging.Logger<Msg>
    /** The module-level logger the categories are reported through. */
    const log: Logging.Logger<Msg>
    /** The user name, the platform, the path and the commands, as this machine has them. */
    const env: Env

    constructor(log: Logging.Logger<Msg>, env: Env)
      ensures this.log == log && this.env == env && logger.indent == 0 && Valid()
    {
      this.log := log;
      this.env := env;
      logger := new Logging.Logger(log.term);
    }

    /** Two loggers, one terminal. */
    predicate Valid() {
      logger != log && logger.term == log.term
    }

    /** `equal`, printing through the checker's own logger. */
    method Equal(expected: Value, name: string, value: Value, shouldWarn: bool)
      requires Valid()
      modifies log.term
      ensures log.term.lines == old(log.term.lines) + [EqualLine(logger.indent, expected, name, value, shouldWarn)]
    {
      if value == expected {
        logger.SpacedStatus(Logging.Pass, Correct(name));
      } else if shouldWarn {
        logger.SpacedStatus(Logging.Warn, Mismatch(name, expected, value));
      } else {
        logger.SpacedStatus(Logging.Fail, Mismatch(name, expected, value));
      }
    }

    method CheckUsername(expected: Value) returns (fault: Option<Fault>)
      requires Valid()
      modifies log.term
      ensures Outcome(log.term.lines, fault) == Printed(old(log.term.lines), Username(env, logger.indent, expected))
    {
      if env.user.None? {
        assert old(log.term.lines) + [] == log.term.lines;
        return Some(KeyError);
      }
      Equal(expected, "Username", Str(env.user.value), false);
      return None;
    }

    method CheckSsh(expected: Value) returns (fault: Option<Fault>)
      requires Valid()
      modifies log.term
      ensures Outcome(log.term.lines, fault) == Printed(old(log.term.lines), Ssh(env, logger.indent, expected))
    {
      var key := SshKey(env.run(SshFingerprint));
      if key.Err? {
        assert old(log.term.lines) + [] == log.term.lines;
        return Some(key.error);
      }
      Equal(expected, "SSH key", Str(key.value), false);
      return None;
    }

    method CheckGpg(expected: Value) returns (fault: Option<Fault>)
      requires Valid()
      modifies log.term
      ensures Outcome(log.term.lines, fault) == Printed(old(log.term.lines), Gpg(env, logger.indent, expected))
    {
      var output := env.run(GpgListKeys(expected));
      if output.Raised? {
        assert old(log.term.lines) + [] == log.term.lines;
        return Some(CommandFailed);
      }
      if output.Output? {
        Equal(expected, "GPG key", expected, false);
      } else {
        Equal(expected, "GPG key", Str("not found"), false);
      }
      return None;
    }

    /** The identity section: user name, SSH key, GPG key, stopping at the first exception. */
    method CheckIdentity(data: Value) returns (fault: Option<Fault>)
      requires Valid()
      modifies log.term
      ensures Outcome(log.term.lines, fault) == Printed(old(log.term.lines), Identity(env, logger.indent, data))
    {
      var own := logger.indent;
      var u := Lookup(data, ["identity", "username"]);
      if u.Err? {
        assert old(log.term.lines) + [] == log.term.lines;
        return Some(u.error);
      }
      var s := Lookup(data, ["identity", "ssh-key"]);
      var g := Lookup(data, ["identity", "gpg-key"]);
      var sshPart := if s.Err? then Raise(s.error) else Then(Ssh(env, own, s.value), if g.Err? then Raise(g.error) else Gpg(env, own, g.value));
      PrintedThen(old(log.term.lines), Username(env, own, u.value), sshPart);
      fault := CheckUsername(u.value);
      if fault.Some? {
        return;
      }
      if s.Err? {
        assert log.term.lines + [] == log.term.lines;
        return Some(s.error);
      }
      ghost var afterUser := log.term.lines;
      PrintedThen(afterUser, Ssh(env, own, s.value), if g.Err? then Raise(g.error) else Gpg(env, own, g.value));
      fault := CheckSsh(s.value);
      if fault.Some? {
        return;
      }
      if g.Err? {
        assert log.term.lines + [] == log.term.lines;
        return Some(g.error);
      }
      fault := CheckGpg(g.value);
    }

    /**
     * `_check_executables`: split and strip the list, collect the names `which` cannot
     * find, and report them, or report that all are there.
     */
    method CheckExecutables(category: string, executables: Value) returns (fault: Option<Fault>)
      requires Valid()
      modifies log.term
      ensures Outcome(log.term.lines, fault) == Printed(old(log.term.lines), Executables(env, log.indent, executables))
    {
      if !Truthy(executables) {
        assert old(log.term.lines) + [] == log.term.lines;
        return None;
      }
      if !executables.Str? {
        assert old(log.term.lines) + [] == log.term.lines;
        return Some(AttributeError);
      }
      var names := ListedNames(executables.s);
      var missing := CollectMissing(names, env.onPath);
      if missing != {} {
        log.SpacedStatus(Logging.Fail, MissingExecutables(Noun(|missing|), missing));
      } else {
        log.SpacedStatus(Logging.Pass, Available(|names|, Noun(|names|)));
      }
      return None;
    }

    /** One entry of `_check_run_items`, the `$` substitution walking down the document. */
    method CheckRunItem(category: string, name: string, item: Value, data: Value) returns (fault: Option<Fault>)
      requires Valid()
      modifies log.term
      ensures Outcome(log.term.lines, fault) == Printed(old(log.term.lines), RunItem(env, log.indent, category, data, name, item))
    {
      if !item.Map? || "cmd" !in Keys(item.entries) {
        log.SpacedStatus(Logging.Warn, Invalid(category));
        return None;
      }
      if "equal" !in Keys(item.entries) {
        log.SpacedStatus(Logging.Warn, NotChecked(name));
        return None;
      }
      var expected := Index(item, "equal").value;
      if !expected.Str? {
        assert old(log.term.lines) + [] == log.term.lines;
        return Some(AttributeError);
      }
      if StartsWith(expected.s, "$") {
        var found := Substitute(data, SplitOn(expected.s[1..], '.'));
        if found.Err? {
          assert old(log.term.lines) + [] == log.term.lines;
          return Some(found.error);
        }
        expected := found.value;
      }
      var got := env.run(Shell(Index(item, "cmd").value));
      if got.Raised? {
        assert old(log.term.lines) + [] == log.term.lines;
        return Some(CommandFailed);
      }
      if got.Output? && expected == Str(Strip(got.text)) {
        log.SpacedStatus(Logging.Pass, Item(name));
      } else {
        log.SpacedStatus(Logging.Fail, Item(name));
      }
      return None;
    }

    /** `_check_run_items`: the entries in order; an invalid one is reported and passed over. */
    method CheckRunItems(category: string, runItems: Value, data: Value) returns (fault: Option<Fault>)
      requires Valid()
      modifies log.term
      ensures Outcome(log.term.lines, fault) == Printed(old(log.term.lines), RunChecks(env, log.indent, category, runItems, data))
    {
      if !Truthy(runItems) {
        assert old(log.term.lines) + [] == log.term.lines;
        return None;
      }
      if !runItems.Map? {
        assert old(log.term.lines) + [] == log.term.lines;
        return Some(AttributeError);
      }
      var entries := runItems.entries;
      var i := 0;
      while i < |entries|
        invariant 0 <= i <= |entries|
        invariant Printed(old(log.term.lines), RunItems(env, log.indent, category, data, entries))
               == Printed(log.term.lines, RunItems(env, log.indent, category, data, entries[i..]))
      {
        assert entries[i..][0] == entries[i] && entries[i..][1..] == entries[i + 1..];
        PrintedThen(log.term.lines, RunItem(env, log.indent, category, data, entries[i].0, entries[i].1),
                    RunItems(env, log.indent, category, data, entries[i + 1..]));
        fault := CheckRunItem(category, entries[i].0, entries[i].1, data);
        if fault.Some? {
          return;
        }
        i := i + 1;
      }
      assert log.term.lines + [] == log.term.lines;
      return None;
    }

    /** The inside of a category's `with log:` block. */
    method CheckBody(category: string, contents: Value, data: Value) returns (fault: Option<Fault>)
      requires Valid()
      modifies log.term
      ensures Outcome(log.term.lines, fault) == Printed(old(log.term.lines), Body(env, log.indent, category, contents, data))
    {
      var executables := Get(contents, "executables");
      if executables.Err? {
        assert old(log.term.lines) + [] == log.term.lines;
        return Some(executables.error);
      }
      PrintedThen(old(log.term.lines), Executables(env, log.indent, executables.value),
                  RunChecks(env, log.indent, category, Get(contents, "run_check").value, data));
      fault := CheckExecutables(category, executables.value);
      if fault.Some? {
        return;
      }
      fault := CheckRunItems(category, Get(contents, "run_check").value, data);
    }

    /**
     * `_check_category`: the gate, then either the `skip` line or the `topic` line and
     * the body one level deeper. The block's exception is swallowed and the indent
     * is back where it was.
     */
    method CheckCategory(category: string, contents: Value, data: Value) returns (fault: Option<Fault>)
      requires Valid()
      modifies log, log.term
      ensures Outcome(log.term.lines, fault) == Printed(old(log.term.lines), Category(env, old(log.indent), category, contents, data))
      ensures log.indent == old(log.indent)
    {
      var gate := Gate(env.platform, contents);
      if gate.Err? {
        assert old(log.term.lines) + [] == log.term.lines;
        return Some(gate.error);
      }
      if !gate.value {
        log.SpacedStatus(Logging.Skip, Heading(category));
        return None;
      }
      ghost var body := Body(env, log.indent + Logging.IndentSize, category, contents, data);
      ghost var topic := Status(log.indent, Logging.Topic, Heading(category));
      assert Category(env, log.indent, category, contents, data) == Emit([topic] + body.lines);
      log.SpacedStatus(Logging.Topic, Heading(category));
      log.Enter();
      var swallowed := CheckBody(category, contents, data);
      log.Exit();
      Assoc(old(log.term.lines), [topic], body.lines);
      return None;
    }

    /** The categories under `things`, in order, until one raises. */
    method CheckThings(data: Value) returns (fault: Option<Fault>)
      requires Valid()
      modifies log, log.term
      ensures Outcome(log.term.lines, fault) == Printed(old(log.term.lines), Things(env, old(log.indent), data))
      ensures log.indent == old(log.indent)
    {
      var things := Index(data, "things");
      if things.Err? {
        assert old(log.term.lines) + [] == log.term.lines;
        return Some(things.error);
      }
      if !things.value.Map? {
        assert old(log.term.lines) + [] == log.term.lines;
        return Some(AttributeError);
      }
      var entries := things.value.entries;
      var i := 0;
      while i < |entries|
        invariant 0 <= i <= |entries|
        invariant log.indent == old(log.indent)
        invariant Printed(old(log.term.lines), Categories(env, log.indent, entries, data))
               == Printed(log.term.lines, Categories(env, log.indent, entries[i..], data))
      {
        assert entries[i..][0] == entries[i] && entries[i..][1..] == entries[i + 1..];
        PrintedThen(log.term.lines, Category(env, log.indent, entries[i].0, entries[i].1, data),
                    Categories(env, log.indent, entries[i + 1..], data));
        fault := CheckCategory(entries[i].0, entries[i].1, data);
        if fault.Some? {
          return;
        }
        i := i + 1;
      }
      assert log.term.lines + [] == log.term.lines;
      return None;
    }

    /** `run`: the identity checks, then the categories; the first exception ends the run. */
    method Run(data: Value) returns (fault: Option<Fault>)
      requires Valid()
      modifies log, log.term
      ensures Outcome(log.term.lines, fault) == Printed(old(log.term.lines), Checks(env, logger.indent, old(log.indent), data))
      ensures log.indent == old(log.indent)
    {
      PrintedThen(log.term.lines, Identity(env, logger.indent, data), Things(env, log.indent, data));
      fault := CheckIdentity(data);
      if fault.Some? {
        return;
      }
      fault := CheckThings(data);
    }
  }
}
