/**
 * The system checker: given the parsed check file, it compares the user name, the
 * SSH key fingerprint and the GPG key with the file's `identity` section, then goes
 * through the categories under `things`, each gated on the platform, checking that
 * the listed executables are on the path and that each listed command prints what
 * the file expects.
 *
 * The outside world is one `Env` value: the `USER` variable, the platform name, the
 * executables `which` can find, and the result of running each command.
 */
module SystemCheck {
  import opened Wrappers
  import opened Text
  import opened Document
  import Logging

  /** The commands the checker runs: `ssh-keygen -E md5 -lf ~/.ssh/id_rsa.pub`, `gpg --list-keys <key>`, and a run item's `cmd`. */
  datatype Command = SshFingerprint | GpgListKeys(key: Value) | Shell(cmd: Value)

  /**
   * `run_output`: the decoded output, `None` for a non-zero exit, or an exception
   * (the program is not there, the command text cannot be split).
   */
  datatype RunOutcome = Output(text: string) | NonZeroExit | Raised

  datatype Env = Env(user: Option<string>, platform: string, onPath: set<string>, run: Command -> RunOutcome)

  /** What a status line says; `Mismatch` is "<name> is not <expected>, it is <value>". */
  datatype Msg =
    | Correct(name: string)
    | Mismatch(name: string, expected: Value, got: Value)
    | Heading(name: string)
    | MissingExecutables(noun: string, missing: set<string>)
    | Available(count: nat, noun: string)
    | Invalid(category: string)
    | Item(name: string)
    | NotChecked(name: string)

  type Report = Logging.Line<Msg>

  /** What a check prints, and the exception it ends with, if any. */
  datatype Outcome = Outcome(lines: seq<Report>, fault: Option<Fault>)

  function Emit(lines: seq<Report>): Outcome {
    Outcome(lines, None)
  }

  function Raise(f: Fault): Outcome {
    Outcome([], Some(f))
  }

  /** `a` then `b`, unless `a` raised: then `b` never runs. */
  function Then(a: Outcome, b: Outcome): Outcome {
    if a.fault.Some? then a else Outcome(a.lines + b.lines, b.fault)
  }

  /** The terminal after `o` printed on top of `before`, and how `o` ended. */
  function Printed(before: seq<Report>, o: Outcome): Outcome {
    Outcome(before + o.lines, o.fault)
  }

  lemma PrintedThen(before: seq<Report>, a: Outcome, b: Outcome)
    ensures Printed(before, Then(a, b)) == if a.fault.Some? then Printed(before, a) else Printed(before + a.lines, b)
  {
    if a.fault.None? {
      assert before + (a.lines + b.lines) == before + a.lines + b.lines;
    }
  }

  function Status(pad: int, status: Logging.Label, msg: Msg): Report {
    Logging.Line(Logging.Pad(pad), status, msg)
  }

  /**
   * `equal`: pass when the value from the system equals the expected one; otherwise
   * warn or fail, as `should_warn` says, naming both values.
   */
  function EqualLine(indent: int, expected: Value, name: string, value: Value, shouldWarn: bool): (l: Report)
    ensures l.pad == Logging.Pad(indent)
    ensures l.status == Logging.Pass <==> value == expected
    ensures l.status == Logging.Pass ==> l.message == Correct(name)
    ensures l.status != Logging.Pass ==> l.status == (if shouldWarn then Logging.Warn else Logging.Fail)
    ensures l.status != Logging.Pass ==> l.message == Mismatch(name, expected, value)
  {
    if value == expected then Status(indent, Logging.Pass, Correct(name))
    else Status(indent, if shouldWarn then Logging.Warn else Logging.Fail, Mismatch(name, expected, value))
  }

  /** `_check_username`: `USER` against the expected name; no `USER` is a `KeyError`. */
  function Username(env: Env, own: int, expected: Value): Outcome {
    if env.user.None? then Raise(KeyError)
    else Emit([EqualLine(own, expected, "Username", Str(env.user.value), false)])
  }

  /**
   * The fingerprint in `ssh-keygen` output: its second blank-separated word, without
   * an `MD5:` prefix; "not found" when the command fails; an `IndexError` when the
   * output has fewer than two words.
   */
  function SshKey(out: RunOutcome): (r: Result<string, Fault>)
    ensures out.NonZeroExit? ==> r == Ok("not found")
    ensures out.Raised? ==> r == Err(CommandFailed)
    ensures out.Output? ==> (r.Err? <==> |Fields(out.text)| < 2)
    ensures out.Output? && r.Ok? ==> NoSpace(r.value)
    ensures out.Output? && r.Ok? && !StartsWith(Fields(out.text)[1], "MD5:") ==> r.value == Fields(out.text)[1]
    ensures out.Output? && r.Ok? && StartsWith(Fields(out.text)[1], "MD5:") ==> Fields(out.text)[1] == "MD5:" + r.value
  {
    match out
    case NonZeroExit => Ok("not found")
    case Raised => Err(CommandFailed)
    case Output(text) =>
      var words := Fields(text);
      if |words| < 2 then Err(IndexError)
      else
        var key := words[1];
        if StartsWith(key, "MD5:") then
          assert key == "MD5:" + key[4..];
          Ok(key[4..])
        else Ok(key)
  }

  /** `_check_ssh`: the fingerprint against the expected key. */
  function Ssh(env: Env, own: int, expected: Value): Outcome {
    var key := SshKey(env.run(SshFingerprint));
    if key.Err? then Raise(key.error)
    else Emit([EqualLine(own, expected, "SSH key", Str(key.value), false)])
  }

  /** `_check_gpg`: a listed key is compared with itself; an unlisted one as "not found". */
  function Gpg(env: Env, own: int, expected: Value): Outcome {
    match env.run(GpgListKeys(expected))
    case Raised => Raise(CommandFailed)
    case Output(_) => Emit([EqualLine(own, expected, "GPG key", expected, false)])
    case NonZeroExit => Emit([EqualLine(own, expected, "GPG key", Str("not found"), false)])
  }

  /** The three identity checks, each reading its expected value from `identity`. */
  function Identity(env: Env, own: int, data: Value): Outcome {
    var u := Lookup(data, ["identity", "username"]);
    if u.Err? then Raise(u.error)
    else Then(Username(env, own, u.value),
      var s := Lookup(data, ["identity", "ssh-key"]);
      if s.Err? then Raise(s.error)
      else Then(Ssh(env, own, s.value),
        var g := Lookup(data, ["identity", "gpg-key"]);
        if g.Err? then Raise(g.error)
        else Gpg(env, own, g.value)))
  }

  /** The word for `n` executables. */
  function Noun(n: nat): (w: string)
    ensures w == "executable" <==> n == 1
  {
    if n == 1 then "executable" else "executables"
  }

  /** The names of a comma-separated executables list, each stripped of blanks. */
  function ListedNames(s: string): (r: seq<string>)
    ensures |r| == |SplitOn(s, ',')|
    ensures forall i :: 0 <= i < |r| ==> r[i] == Strip(SplitOn(s, ',')[i])
  {
    var pieces := SplitOn(s, ',');
    seq(|pieces|, i requires 0 <= i < |pieces| => Strip(pieces[i]))
  }

  /** The listed names `which` cannot find. */
  function MissingFrom(names: seq<string>, onPath: set<string>): set<string> {
    set n | n in names && n !in onPath
  }

  /** The loop that asks `which` about each name and collects those it cannot find. */
  method CollectMissing(names: seq<string>, onPath: set<string>) returns (missing: set<string>)
    ensures missing == MissingFrom(names, onPath)
  {
    missing := {};
    var i := 0;
    while i < |names|
      invariant 0 <= i <= |names|
      invariant missing == MissingFrom(names[..i], onPath)
    {
      assert names[..i + 1] == names[..i] + [names[i]];
      if names[i] !in onPath {
        missing := missing + {names[i]};
      }
      i := i + 1;
    }
    assert names[..i] == names;
  }

  /**
   * `_check_executables`: nothing for an empty or absent list; otherwise fail naming
   * the missing ones, or pass with the number of names listed. A list that is not a
   * string has no `split` (an `AttributeError`).
   */
  function Executables(env: Env, indent: int, executables: Value): Outcome {
    if !Truthy(executables) then Emit([])
    else if !executables.Str? then Raise(AttributeError)
    else
      var names := ListedNames(executables.s);
      var missing := MissingFrom(names, env.onPath);
      if missing != {} then Emit([Status(indent, Logging.Fail, MissingExecutables(Noun(|missing|), missing))])
      else Emit([Status(indent, Logging.Pass, Available(|names|, Noun(|names|)))])
  }

  /** The expected output of a run item: `$a.b.c` is looked up in the document; a non-string has no `startswith`. */
  function Expected(data: Value, e: Value): (r: Result<Value, Fault>)
    ensures !e.Str? ==> r == Err(AttributeError)
    ensures e.Str? && !StartsWith(e.s, "$") ==> r == Ok(e)
    ensures e.Str? && StartsWith(e.s, "$") ==> r.Err? ==> r.error == KeyError || r.error == TypeError
  {
    if !e.Str? then Err(AttributeError)
    else if StartsWith(e.s, "$") then Lookup(data, SplitOn(e.s[1..], '.'))
    else Ok(e)
  }

  /**
   * One run item: warn when it is not a mapping with `cmd`, warn when it has no
   * `equal`, otherwise pass exactly when the command prints the expected text, blanks
   * around it aside.
   */
  function RunItem(env: Env, indent: int, category: string, data: Value, name: string, item: Value): Outcome {
    if !item.Map? || "cmd" !in Keys(item.entries) then Emit([Status(indent, Logging.Warn, Invalid(category))])
    else if "equal" !in Keys(item.entries) then Emit([Status(indent, Logging.Warn, NotChecked(name))])
    else
      var expected := Expected(data, Index(item, "equal").value);
      if expected.Err? then Raise(expected.error)
      else
        match env.run(Shell(Index(item, "cmd").value))
        case Raised => Raise(CommandFailed)
        case NonZeroExit => Emit([Status(indent, Logging.Fail, Item(name))])
        case Output(text) =>
          Emit([Status(indent, if expected.value == Str(Strip(text)) then Logging.Pass else Logging.Fail, Item(name))])
  }

  function RunItems(env: Env, indent: int, category: string, data: Value, entries: seq<(string, Value)>): Outcome
    decreases |entries|
  {
    if entries == [] then Emit([])
    else Then(RunItem(env, indent, category, data, entries[0].0, entries[0].1),
              RunItems(env, indent, category, data, entries[1..]))
  }

  /** `_check_run_items`: nothing when there are none; a value that is not a mapping has no `items`. */
  function RunChecks(env: Env, indent: int, category: string, runItems: Value, data: Value): Outcome {
    if !Truthy(runItems) then Emit([])
    else if !runItems.Map? then Raise(AttributeError)
    else RunItems(env, indent, category, data, runItems.entries)
  }

  /** The inside of the `with log:` block of a category. */
  function Body(env: Env, indent: int, category: string, contents: Value, data: Value): Outcome {
    var executables := Get(contents, "executables");
    if executables.Err? then Raise(executables.error)
    else Then(Executables(env, indent, executables.value),
              RunChecks(env, indent, category, Get(contents, "run_check").value, data))
  }

  /**
   * The `if` gate of a category: run it (true) or skip it (false). A condition whose
   * keys are not exactly `platform` is a `ValueError`.
   */
  function Gate(platform: string, contents: Value): Result<bool, Fault> {
    var has := Contains(contents, "if");
    if has.Err? then Err(has.error)
    else if !has.value then Ok(true)
    else
      var cond := Index(contents, "if");
      if cond.Err? then Err(cond.error)
      else
        var keys := Iterate(cond.value);
        if keys.Err? then Err(keys.error)
        else if keys.value != [Str("platform")] then Err(ValueError)
        else
          var p := Index(cond.value, "platform");
          if p.Err? then Err(p.error)
          else Ok(p.value == Str(platform))
  }

  /**
   * `_check_category`: a skipped category prints one `skip` line; a checked one its
   * `topic` line, then the body one level deeper. An exception in the body ends the
   * body and goes no further: the logger's exit swallows it.
   */
  function Category(env: Env, indent: int, category: string, contents: Value, data: Value): Outcome {
    var gate := Gate(env.platform, contents);
    if gate.Err? then Raise(gate.error)
    else if !gate.value then Emit([Status(indent, Logging.Skip, Heading(category))])
    else Emit([Status(indent, Logging.Topic, Heading(category))] + Body(env, indent + Logging.IndentSize, category, contents, data).lines)
  }

  function Categories(env: Env, indent: int, entries: seq<(string, Value)>, data: Value): Outcome
    decreases |entries|
  {
    if entries == [] then Emit([])
    else Then(Category(env, indent, entries[0].0, entries[0].1, data), Categories(env, indent, entries[1..], data))
  }

  /** The categories under `things`, in document order. */
  function Things(env: Env, indent: int, data: Value): Outcome {
    var things := Index(data, "things");
    if things.Err? then Raise(things.error)
    else if !things.value.Map? then Raise(AttributeError)
    else Categories(env, indent, things.value.entries, data)
  }

  /** `run`: the identity checks on the checker's own logger, then the categories on the shared one. */
  function Checks(env: Env, own: int, indent: int, data: Value): Outcome {
    Then(Identity(env, own, data), Things(env, indent, data))
  }

  /**
   * The fingerprint is read back from an `ssh-keygen` listing: size, `MD5:` fingerprint,
   * then any further words, with any runs of blanks between them and around them (the
   * listing's trailing newline among them).
   */
  lemma SshKeyOfListing(pre: string, bits: string, fp: string, rest: seq<string>, gaps: seq<string>)
    requires bits != [] && NoSpace(bits) && NoSpace(fp) && Words(rest)
    requires AllSpace(pre) && |gaps| == |rest| + 2 && Gaps(gaps)
    ensures SshKey(Output(pre + Spread([bits, "MD5:" + fp] + rest, gaps))) == Ok(fp)
  {
    var ws := [bits, "MD5:" + fp] + rest;
    Md5Word(fp);
    WordsCons(bits, "MD5:" + fp, rest);
    FieldsOfSpread(pre, ws, gaps);
    var key := ws[1];
    assert StartsWith(key, "MD5:");
    assert key[4..] == fp;
  }

  lemma Md5Word(fp: string)
    requires NoSpace(fp)
    ensures NoSpace("MD5:" + fp)
  {
    var w := "MD5:" + fp;
    forall i | 4 <= i < |w|
      ensures !IsSpace(w[i])
    {
      assert w[i] == fp[i - 4];
    }
    assert !IsSpace(w[0]) && !IsSpace(w[1]) && !IsSpace(w[2]) && !IsSpace(w[3]);
  }

  lemma WordsCons(a: string, b: string, rest: seq<string>)
    requires a != [] && NoSpace(a) && b != [] && NoSpace(b)
    requires Words(rest)
    ensures Words([a, b] + rest)
  {
    var ws := [a, b] + rest;
    forall i | 2 <= i < |ws|
      ensures ws[i] != [] && NoSpace(ws[i])
    {
      assert ws[i] == rest[i - 2];
    }
  }

  /** The GPG check passes whenever `gpg` lists the key; when it does not, only an expected "not found" passes. */
  lemma GpgVerdict(env: Env, own: int, expected: Value)
    ensures var o := Gpg(env, own, expected);
            match env.run(GpgListKeys(expected))
            case Raised => o == Raise(CommandFailed)
            case Output(_) => o == Emit([Status(own, Logging.Pass, Correct("GPG key"))])
            case NonZeroExit => o.fault.None? && |o.lines| == 1 &&
                                (o.lines[0].status == Logging.Pass <==> expected == Str("not found"))
  {
  }

  /**
   * The identity checks print, when none of them raises, exactly three lines on the
   * checker's own logger: the user name, the SSH key and the GPG key, in that order.
   */
  lemma IdentityOrder(env: Env, own: int, data: Value)
    requires Identity(env, own, data).fault.None?
    ensures var lines := Identity(env, own, data).lines;
            && |lines| == 3
            && IdentityLine(lines[0], own, "Username")
            && IdentityLine(lines[1], own, "SSH key")
            && IdentityLine(lines[2], own, "GPG key")
  {
    var u := Lookup(data, ["identity", "username"]);
    var s := Lookup(data, ["identity", "ssh-key"]);
    var g := Lookup(data, ["identity", "gpg-key"]);
    assert u.Ok? && env.user.Some?;
    var a := Username(env, own, u.value);
    assert s.Ok? && SshKey(env.run(SshFingerprint)).Ok?;
    var b := Ssh(env, own, s.value);
    assert g.Ok? && !env.run(GpgListKeys(g.value)).Raised?;
    var c := Gpg(env, own, g.value);
    assert IdentityLine(a.lines[0], own, "Username");
    assert IdentityLine(b.lines[0], own, "SSH key");
    assert IdentityLine(c.lines[0], own, "GPG key");
    assert Identity(env, own, data).lines == a.lines + (b.lines + c.lines);
  }

  /** A line of the checker's own logger about `name`: it is correct, or it names both values. */
  predicate IdentityLine(l: Report, own: int, name: string) {
    l.pad == Logging.Pad(own) && (l.message == Correct(name) || (l.message.Mismatch? && l.message.name == name))
  }

  /** The categories are checked only after the identity checks, and only when none of those raised. */
  lemma IdentityFirst(env: Env, own: int, indent: int, data: Value)
    ensures Identity(env, own, data).fault.Some? ==> Checks(env, own, indent, data) == Identity(env, own, data)
    ensures Identity(env, own, data).fault.None? ==>
            Checks(env, own, indent, data).lines == Identity(env, own, data).lines + Things(env, indent, data).lines
  {
  }

  function PadAll(names: seq<string>): (r: seq<string>)
    ensures |r| == |names|
    ensures forall i :: 0 <= i < |names| ==> r[i] == " " + names[i]
  {
    seq(|names|, i requires 0 <= i < |names| => " " + names[i])
  }

  lemma {:induction false} JoinCommaSpace(names: seq<string>)
    requires |names| >= 1
    ensures " " + JoinOn(names, ", ") == JoinOn(PadAll(names), ",")
    decreases |names|
  {
    if |names| > 1 {
      JoinCommaSpace(names[1..]);
      assert PadAll(names)[1..] == PadAll(names[1..]);
    }
  }

  /** A name a list can hold: no comma, and no blank at either end. */
  predicate Clean(name: string) {
    ',' !in name && (name == [] || (!IsSpace(name[0]) && !IsSpace(name[|name| - 1])))
  }

  /** Stripping leaves a clean name alone, and takes off a blank put in front of it. */
  lemma StripClean(name: string)
    requires Clean(name)
    ensures Strip(name) == name && Strip(" " + name) == name
  {
    assert AllSpace("") && AllSpace(" ");
    StripPadded("", name, "");
    assert "" + name + "" == name;
    StripPadded(" ", name, "");
    assert " " + name + "" == " " + name;
  }

  /** `a, b, c` is `a`, ` b` and ` c` joined with bare commas. */
  lemma JoinSpaced(names: seq<string>)
    requires |names| >= 1
    ensures JoinOn(names, ", ") == JoinOn([names[0]] + PadAll(names[1..]), ",")
  {
    var pieces := [names[0]] + PadAll(names[1..]);
    if |names| > 1 {
      var j := JoinOn(names[1..], ", ");
      assert pieces[0] == names[0] && pieces[1..] == PadAll(names[1..]);
      JoinCommaSpace(names[1..]);
      CommaSpace(names[0], j);
    }
  }

  lemma CommaSpace(a: string, j: string)
    ensures a + ", " + j == a + "," + (" " + j)
  {
    assert ", " == "," + " ";
  }

  /** Splitting on commas and stripping recovers the names of a list written `a, b, c`. */
  lemma ListedNamesOfJoin(names: seq<string>)
    requires |names| >= 1
    requires forall i :: 0 <= i < |names| ==> Clean(names[i])
    ensures ListedNames(JoinOn(names, ", ")) == names
  {
    var pieces := [names[0]] + PadAll(names[1..]);
    var text := JoinOn(names, ", ");
    JoinSpaced(names);
    CommaFree(names);
    SplitOfJoin(pieces, ',');
    assert SplitOn(text, ',') == pieces;
    var listed := ListedNames(text);
    forall i | 0 <= i < |names|
      ensures listed[i] == names[i]
    {
      PieceStrips(names, i);
    }
  }

  /** Each piece of `a, b, c` strips to its name. */
  lemma PieceStrips(names: seq<string>, i: nat)
    requires i < |names| && Clean(names[i])
    ensures Strip(([names[0]] + PadAll(names[1..]))[i]) == names[i]
  {
    StripClean(names[i]);
    if i > 0 {
      var pad := PadAll(names[1..]);
      assert ([names[0]] + pad)[i] == pad[i - 1];
      assert pad[i - 1] == " " + names[1..][i - 1];
      assert names[1..][i - 1] == names[i];
    }
  }

  lemma CommaFree(names: seq<string>)
    requires |names| >= 1
    requires forall i :: 0 <= i < |names| ==> Clean(names[i])
    ensures var pieces := [names[0]] + PadAll(names[1..]);
            forall i :: 0 <= i < |pieces| ==> ',' !in pieces[i]
  {
    var pieces := [names[0]] + PadAll(names[1..]);
    forall i | 0 <= i < |pieces|
      ensures ',' !in pieces[i]
    {
      if i > 0 {
        assert pieces[i] == " " + names[i];
      }
    }
  }

  /**
   * The executables check: nothing for an empty or absent list; an `AttributeError`
   * for a list that is not a string; otherwise one line, `fail` exactly when some
   * listed name cannot be found (naming the ones that cannot), else `pass` with the
   * number of names listed, in the singular only for one.
   */
  lemma ExecutablesVerdict(env: Env, indent: int, executables: Value)
    ensures var o := Executables(env, indent, executables);
            && (!Truthy(executables) ==> o == Emit([]))
            && (Truthy(executables) && !executables.Str? ==> o == Raise(AttributeError))
    ensures Truthy(executables) && executables.Str? ==>
            var o := Executables(env, indent, executables);
            var names := ListedNames(executables.s);
            && o.fault.None? && |o.lines| == 1 && o.lines[0].pad == Logging.Pad(indent)
            && (o.lines[0].status == Logging.Fail <==> exists n :: n in names && n !in env.onPath)
            && (o.lines[0].status == Logging.Fail ==>
                  && o.lines[0].message.missing == set n | n in names && n !in env.onPath
                  && (o.lines[0].message.noun == "executable" <==> |o.lines[0].message.missing| == 1))
            && (o.lines[0].status != Logging.Fail ==>
                  && o.lines[0].status == Logging.Pass
                  && o.lines[0].message.count == |SplitOn(executables.s, ',')|
                  && (o.lines[0].message.noun == "executable" <==> |SplitOn(executables.s, ',')| == 1))
  {
    if Truthy(executables) && executables.Str? {
      var names := ListedNames(executables.s);
      MissingNone(names, env.onPath);
    }
  }

  /** Nothing is missing exactly when `which` finds every listed name. */
  lemma MissingNone(names: seq<string>, onPath: set<string>)
    ensures MissingFrom(names, onPath) == {} <==> !exists n :: n in names && n !in onPath
  {
    if exists n :: n in names && n !in onPath {
      var n :| n in names && n !in onPath;
      assert n in MissingFrom(names, onPath);
    }
  }

  /** A `$` expectation written as a dotted path is looked up along that path. */
  lemma SubstitutedPath(data: Value, parts: seq<string>)
    requires |parts| >= 1
    requires forall i :: 0 <= i < |parts| ==> '.' !in parts[i]
    ensures Expected(data, Str("$" + JoinOn(parts, "."))) == Lookup(data, parts)
  {
    var e := "$" + JoinOn(parts, ".");
    assert StartsWith(e, "$");
    assert e[1..] == JoinOn(parts, ".");
    SplitOfJoin(parts, '.');
  }

  /**
   * A run item that is not a mapping with `cmd` warns; one without `equal` warns that
   * it was not checked; otherwise, once the expected value is known, the item passes
   * exactly when the command prints that text (up to surrounding blanks), fails when
   * it prints something else or exits non-zero, and raises when it cannot be run.
   */
  lemma RunItemVerdict(env: Env, indent: int, category: string, data: Value, name: string, item: Value)
    ensures !item.Map? || "cmd" !in Keys(item.entries) ==>
            RunItem(env, indent, category, data, name, item) == Emit([Status(indent, Logging.Warn, Invalid(category))])
    ensures item.Map? && "cmd" in Keys(item.entries) && "equal" !in Keys(item.entries) ==>
            RunItem(env, indent, category, data, name, item) == Emit([Status(indent, Logging.Warn, NotChecked(name))])
    ensures item.Map? && "cmd" in Keys(item.entries) && "equal" in Keys(item.entries) ==>
            var o := RunItem(env, indent, category, data, name, item);
            var expected := Expected(data, Index(item, "equal").value);
            var got := env.run(Shell(Index(item, "cmd").value));
            && (expected.Err? ==> o == Raise(expected.error))
            && (expected.Ok? ==>
                  && (o.fault.Some? <==> got.Raised?)
                  && (o.fault.None? ==>
                        && |o.lines| == 1 && o.lines[0].message == Item(name)
                        && (o.lines[0].status == Logging.Pass <==> got.Output? && expected.value == Str(Strip(got.text)))
                        && (o.lines[0].status != Logging.Pass ==> o.lines[0].status == Logging.Fail)))
  {
  }

  /**
   * Run items that do not raise print one line each, at the current indent, each a
   * pass, a fail or a warning: an invalid item does not stop the ones after it.
   */
  lemma {:induction false} RunItemsReport(env: Env, indent: int, category: string, data: Value, entries: seq<(string, Value)>)
    ensures var o := RunItems(env, indent, category, data, entries);
            && (o.fault.None? ==> |o.lines| == |entries|)
            && (forall i :: 0 <= i < |o.lines| ==>
                  && o.lines[i].pad == Logging.Pad(indent)
                  && o.lines[i].status in {Logging.Pass, Logging.Fail, Logging.Warn})
    decreases |entries|
  {
    if entries != [] {
      var first := RunItem(env, indent, category, data, entries[0].0, entries[0].1);
      var rest := RunItems(env, indent, category, data, entries[1..]);
      RunItemsReport(env, indent, category, data, entries[1..]);
      RunItemShape(env, indent, category, data, entries[0].0, entries[0].1);
      assert ItemLines(rest.lines, indent);
      ItemLinesAppend(first.lines, rest.lines, indent);
    }
  }

  /** Lines a run item can print: `pass`, `fail` or `warn` at the block's indent. */
  predicate ItemLines(lines: seq<Report>, indent: int) {
    forall i :: 0 <= i < |lines| ==> lines[i].pad == Logging.Pad(indent) && lines[i].status in {Logging.Pass, Logging.Fail, Logging.Warn}
  }

  lemma ItemLinesAppend(a: seq<Report>, b: seq<Report>, indent: int)
    requires ItemLines(a, indent) && ItemLines(b, indent)
    ensures ItemLines(a + b, indent)
  {
    forall i | 0 <= i < |a + b|
      ensures (a + b)[i].pad == Logging.Pad(indent) && (a + b)[i].status in {Logging.Pass, Logging.Fail, Logging.Warn}
    {
      if i >= |a| {
        assert (a + b)[i] == b[i - |a|];
      }
    }
  }

  /** One run item prints one such line, unless it raises. */
  lemma RunItemShape(env: Env, indent: int, category: string, data: Value, name: string, item: Value)
    ensures var o := RunItem(env, indent, category, data, name, item);
            (o.fault.None? ==> |o.lines| == 1) && ItemLines(o.lines, indent)
  {
    RunItemVerdict(env, indent, category, data, name, item);
  }

  /** The first run item that raises ends the run items: what it and the items before it printed is all there is. */
  lemma {:induction false} RunItemsStop(env: Env, indent: int, category: string, data: Value, entries: seq<(string, Value)>, k: nat)
    requires k < |entries|
    requires RunItems(env, indent, category, data, entries[..k]).fault.None?
    requires RunItem(env, indent, category, data, entries[k].0, entries[k].1).fault.Some?
    ensures var failing := RunItem(env, indent, category, data, entries[k].0, entries[k].1);
            RunItems(env, indent, category, data, entries) ==
            Outcome(RunItems(env, indent, category, data, entries[..k]).lines + failing.lines, failing.fault)
    decreases k
  {
    var failing := RunItem(env, indent, category, data, entries[k].0, entries[k].1);
    if k == 0 {
      assert entries[..0] == [];
      assert RunItems(env, indent, category, data, entries[..0]).lines == [];
    } else {
      var first := RunItem(env, indent, category, data, entries[0].0, entries[0].1);
      var tail := entries[1..];
      assert entries[..k][0] == entries[0] && entries[..k][1..] == tail[..k - 1];
      assert tail[k - 1] == entries[k];
      var before := RunItems(env, indent, category, data, tail[..k - 1]);
      assert RunItems(env, indent, category, data, entries[..k]) == Then(first, before);
      RunItemsStop(env, indent, category, data, tail, k - 1);
      assert RunItems(env, indent, category, data, entries) == Then(first, RunItems(env, indent, category, data, tail));
      Assoc(first.lines, before.lines, failing.lines);
    }
  }

  lemma Assoc(a: seq<Report>, b: seq<Report>, c: seq<Report>)
    ensures a + (b + c) == (a + b) + c
  {
  }

  /** A condition `{platform: p}` lets the category through exactly when `p` names this platform. */
  lemma GateOfPlatform(platform: string, contents: Value, p: Value)
    requires contents.Map? && "if" in Keys(contents.entries)
    requires Index(contents, "if").value == Map([("platform", p)])
    ensures Gate(platform, contents) == Ok(p == Str(platform))
  {
    var cond := Map([("platform", p)]);
    OnlyPlatform(cond);
    assert Keys(cond.entries) == ["platform"];
  }

  /** A mapping condition with any key set other than exactly `platform` is a `ValueError`. */
  lemma GateRejects(platform: string, contents: Value)
    requires contents.Map? && "if" in Keys(contents.entries)
    requires var cond := Index(contents, "if").value;
             cond.Map? && !(|cond.entries| == 1 && cond.entries[0].0 == "platform")
    ensures Gate(platform, contents) == Err(ValueError)
  {
    OnlyPlatform(Index(contents, "if").value);
  }

  /**
   * A skipped category prints its one `skip` line and looks at nothing else: neither
   * the executables on the path nor any command's output matter.
   */
  lemma SkippedCategory(env: Env, other: Env, indent: int, category: string, contents: Value, data: Value)
    requires Gate(env.platform, contents) == Ok(false) && other.platform == env.platform
    ensures Category(env, indent, category, contents, data) == Emit([Status(indent, Logging.Skip, Heading(category))])
    ensures Category(other, indent, category, contents, data) == Category(env, indent, category, contents, data)
  {
  }

  /**
   * An exception inside a category's body (a missing key in a `$` lookup, say) ends
   * that category quietly: the lines up to the failing item stay, nothing after it
   * is checked, and the category does not raise.
   */
  lemma FaultEndsCategory(env: Env, indent: int, category: string, contents: Value, data: Value, k: nat)
    requires Gate(env.platform, contents) == Ok(true) && contents.Map?
    requires var inner := indent + Logging.IndentSize;
             var executables := Get(contents, "executables").value;
             var runItems := Get(contents, "run_check").value;
             && Executables(env, inner, executables).fault.None?
             && runItems.Map? && k < |runItems.entries|
             && RunItems(env, inner, category, data, runItems.entries[..k]).fault.None?
             && RunItem(env, inner, category, data, runItems.entries[k].0, runItems.entries[k].1).fault.Some?
    ensures var inner := indent + Logging.IndentSize;
            var entries := Get(contents, "run_check").value.entries;
            Category(env, indent, category, contents, data) ==
            Emit([Status(indent, Logging.Topic, Heading(category))]
                 + (Executables(env, inner, Get(contents, "executables").value).lines
                    + (RunItems(env, inner, category, data, entries[..k]).lines
                       + RunItem(env, inner, category, data, entries[k].0, entries[k].1).lines)))
  {
    var inner := indent + Logging.IndentSize;
    var runItems := Get(contents, "run_check").value;
    var entries := runItems.entries;
    RunItemsStop(env, inner, category, data, entries, k);
    assert Truthy(runItems);
    var e := Executables(env, inner, Get(contents, "executables").value);
    assert RunChecks(env, inner, category, runItems, data) == RunItems(env, inner, category, data, entries);
    assert Body(env, inner, category, contents, data).lines == e.lines + RunItems(env, inner, category, data, entries).lines;
  }
}
