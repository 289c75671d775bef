# dotfiles: the symlink reconciler and the system checker

A model of the two decision engines of a small dotfiles manager (`lib/__init__.py`).
The filesystem becomes a map. External programs and the environment become oracles.

**The symlink reconciler** (`DotFilesRepo`) works in three stages.
- **Walk.** It walks the dotfiles repository down to a depth bound. It skips `.git` and collects every entry whose name ends in `.symlink`.
- **Link.** It computes the place in the home directory where each entry should be linked, then classifies what is already there:
  - a link whose text is the source is up to date;
  - any other link is updated;
  - a free place gets a new link;
  - a file or directory in the way makes it ask the user: skip, back up or overwrite, optionally for all later conflicts too.
- **Clean.** It finally removes broken links at the top of the target directory.

**The system checker** (`SystemChecker`) works through a parsed YAML document.
- It compares the user name, the SSH key fingerprint and the GPG key with the document.
- It then evaluates each category of `things`:
  - the category is gated on the platform;
  - it checks that the listed executables are on the path;
  - it runs each check command and compares the output with the expected text, or with a `$dotted.path` looked up in the document.
- Every result is a status line (`pass`, `fail`, `warn`, `skip`, `topic`) indented by a logger.

Modules, one file each:
- `wrappers.dfy`: `Option` and `Result`.
- `text.dfy`: the Python string operations used: `strip`, `split()`, `split(sep)`, `lower`.
- `filesystem.dfy`:
  - paths as segment sequences;
  - link resolution and `os.path.exists`, which follows a link at the path itself (at most 40 hops) and takes every directory component of the path to be a real directory;
  - `mkdir -p`, `ln -s`, `mv` and `rm` as map updates, failing where a file or a link is in the way;
  - `WellFormed`: every entry lies in a directory. Every command keeps this, and so does every step of the reconciler.
- `walk.dfy`: `find_files_to_symlink`. The method is an explicit stack of directory frames. It is proved equal to a recursive walk and characterised by a declarative predicate.
- `logging.dfy`:
  - `Logger`, an indent counter that `with` raises and lowers by 4;
  - `Terminal`, the output stream, as a sequence of status lines.
- `dotfiles.dfy`: the reconciler's functional specification. It covers target paths, classification, the prompt, action effects, one sync step, the `.dotfiles-dir` marker and cleaning.
- `repo.dfy`: the `DotFilesRepo` class. Its methods change the filesystem, the sticky global answer, the key input and the terminal, and each is proved against `dotfiles.dfy`.
- `document.dfy`: the YAML value tree and the Python operations on it (`[]`, `in`, `.get`, `list()`, truthiness), each with its exception.
- `systemcheck.dfy`: the checker's functional specification. Each check is an `Outcome`: the lines it prints and the exception it ends with.
- `checker.dfy`: the `SystemChecker` class. Its methods print to the terminal and are proved against `systemcheck.dfy`.

Modelling decisions:
- **Faults.** Exceptions are an explicit `Fault`. `Then(a, b)` runs `b` only when `a` did not raise.
- **The `with log:` block.** The logger's `__exit__` returns `True`, so an exception inside a category's block is swallowed. It ends that category's checks, and `run` goes on with the next category. An exception outside a block ends `run`. Such exceptions come from:
  - the `if` gate;
  - the identity lookups;
  - the SSH output with fewer than two words;
  - a missing `things`.
- **Two loggers.** The checker's own logger (used by `equal`) and the module-level logger (used by the categories) share one terminal but keep separate indents. The model keeps both.
- **Interaction and environment.**
  - Keypresses are a finite input sequence. When it runs out while a conflict still needs an answer, the sync halts (`Halted`) instead of waiting.
  - `USER`, the platform, `which` and the command outputs are fields of `Env`.
  - The tree of the source repository is an `Entry` tree.

- **Run-item output.** The output of a run item's command is stripped at both ends before the comparison (lib/__init__.py:434).
- **The `invalid` warning.** It shows the category, not the item name (lib/__init__.py:420). Its format string has one placeholder for two arguments.

## Model

| member | source | states |
|---|---|---|
| Text.Strip | lib/__init__.py:393 | the stripped text is no longer than the input and neither starts nor ends with whitespace |
| Text.StripPadded | lib/__init__.py:434 | stripping a text surrounded only by whitespace gives back exactly that text |
| Text.Fields | lib/__init__.py:359 | every field of `split()` is non-empty and holds no whitespace |
| Text.FieldsOfSpread | lib/__init__.py:359 | `split()` of words separated by any runs of whitespace, with any whitespace before and after, gives exactly the words |
| Text.SpreadFields | lib/__init__.py:359 | every text is its `split()` fields with runs of whitespace around and between them, so no non-blank character is lost or reordered |
| Text.FieldsOfJoin | lib/__init__.py:359 | `split()` of non-empty blank-free words joined by single spaces gives the words back |
| Text.SplitOn | lib/__init__.py:393 | `split(sep)` gives at least one piece and no piece contains the separator |
| Text.JoinOfSplit | lib/__init__.py:429 | joining the pieces of `split(sep)` with the separator restores the text |
| Text.SplitOfJoin | lib/__init__.py:429 | splitting separator-free pieces joined by the separator gives the pieces back |
| Text.Lower | lib/__init__.py:165 | ASCII lower-casing: each capital A-Z becomes the small letter 32 code points above it and every other character is kept; this agrees with `str.lower()` on every key the prompt accepts |
| FileSystem.NormalizePlain | lib/__init__.py:251 | a path with no `.`, `..` or empty segment resolves to itself below the base |
| FileSystem.RenderResolves | lib/__init__.py:247-251 | the text of an absolute path, read back as link text, resolves to that path |
| FileSystem.ReachesMonotone | lib/__init__.py:275 | a path that exists within some number of link hops still exists with more hops allowed |
| FileSystem.RemoveBrokenKeepsExistence | lib/__init__.py:280-286 | removing broken links does not change whether any other path exists |
| FileSystem.MkdirP | lib/__init__.py:134 | `mkdir -p` keeps every entry and adds only directories on the path with nothing in their way; when no file or link is on the path, every prefix of it is a directory afterwards |
| FileSystem.MkdirPBlocked | lib/__init__.py:134 | when a file or a link is on the path, `mkdir -p` changes nothing |
| FileSystem.MkdirPKeepsWellFormed | lib/__init__.py:134 | `mkdir -p` keeps every entry in a directory |
| FileSystem.LnSKeepsWellFormed | lib/__init__.py:135 | `ln -s` creates its link only inside a directory |
| FileSystem.WellFormedClear | lib/__init__.py:134 | in a well-formed filesystem nothing on the way to an existing entry is a file or a link |
| FileSystem.LinkToPresentExists | lib/__init__.py:274-275 | a link whose text names an existing entry that is no link, once the text's `.` segments are dropped, exists and is not broken |
| FileSystem.IsBroken | lib/__init__.py:274-275 | a link whose resolved text names nothing is broken; one whose resolved text names a file or a directory is not |
| FileSystem.LnS | lib/__init__.py:135 | `ln -s` keeps every entry; its only new entry is a link with the source's text, at the target or, inside a directory there, under the source's last name; a free target gets the link iff there is room for it, and a file or link at the target changes nothing |
| FileSystem.BackupPath | lib/__init__.py:216 | the backup path is the target's text plus `.backup`, beside it and outside its subtree |
| FileSystem.MoveTree | lib/__init__.py:216 | `mv` moves the whole subtree under the new name, with everything else kept and nothing left under the old name |
| FileSystem.MovedFrom | lib/__init__.py:216 | every entry under the new name after `mv` came from the same place under the old name |
| FileSystem.MoveBackupKeepsWellFormed | lib/__init__.py:216 | moving an entry to its `.backup` name keeps every entry in a directory |
| FileSystem.RmAsWritten | lib/__init__.py:218-219 | the plain `rm` removes a file or link and nothing else, and leaves a directory and everything under it in place |
| FileSystem.RmTree | lib/__init__.py:218-219 | the corrected removal of the Findings row: it deletes exactly the target's subtree and keeps every other entry unchanged |
| FileSystem.RemovalsAgree | lib/__init__.py:218-219 | on anything but a directory, in a well-formed filesystem, the plain `rm` and the corrected recursive removal give the same filesystem |
| FileSystem.RmTreeKeepsWellFormed | lib/__init__.py:218-219 | the corrected removal keeps every entry in a directory |
| Logging.Pad | lib/__init__.py:64 | the indent in spaces is the counter, or none when the counter is negative |
| Logging.Logger.constructor | lib/__init__.py:44-47 | a new logger starts at indent 0 on the given terminal |
| Logging.Logger.Enter | lib/__init__.py:49-51 | entering a `with` block raises the indent by 4 |
| Logging.Logger.Exit | lib/__init__.py:53-55 | leaving a `with` block lowers the indent by 4 |
| Logging.Logger.SpacedStatus | lib/__init__.py:75-84 | exactly one line is appended to the terminal, with the current indent, the status and the message |
| Walk.RelPath | lib/__init__.py:201 | the relative path ends in the item's name and starts with `.` for items at the root |
| Walk.SubdirsMembers | lib/__init__.py:195-196 | the directories descended into are exactly the child directories other than `.git` |
| Walk.FilesMembers | lib/__init__.py:199 | the files of a level are exactly its file children |
| Walk.MarkedMembers | lib/__init__.py:199-201 | a level yields exactly its children, files or directories, whose names end in `.symlink` |
| Walk.ListLevel | lib/__init__.py:199-201 | the loop over one level's children yields that level's `.symlink` items in order |
| Walk.FindFilesToSymlink | lib/__init__.py:177-205 | the stack-based walk yields exactly the recursive depth-first walk, in the same order |
| Walk.LevelItemsYield | lib/__init__.py:199-201 | an item comes from a level's own children exactly when it is yielded at that level's depth |
| Walk.SubFramesYield | lib/__init__.py:203-205 | some sub-walk of a directory yields an item iff the directory yields it below its own level |
| Walk.WalkFramesYields | lib/__init__.py:184-205 | a stack of pending directories yields exactly the items some pending directory yields |
| Walk.WalkExactly | lib/__init__.py:184-205 | the walk yields exactly the items the declarative characterisation admits (pruned levels still yield) |
| Walk.YieldsBounds | lib/__init__.py:195-205 | a yielded item is marked, lies under no `.git` and lies at most the depth bound below the root |
| Walk.WalkSound | lib/__init__.py:195-205 | every yielded path ends in `.symlink`, passes through no `.git` and has at most depth-bound-plus-one segments |
| DotFiles.DropMarker | lib/__init__.py:212 | cutting `.symlink` removes exactly the last eight characters, and a shorter name becomes empty |
| DotFiles.ComputeTarget | lib/__init__.py:207-213 | the target drops the topic and dot-prefixes the first kept segment; it removes `.symlink` from the last kept segment (both edits on one segment when only one is kept) and keeps the middle segments |
| DotFiles.TargetRoundTrip | lib/__init__.py:207-213 | from the topic and the target the relative source path is recovered exactly |
| DotFiles.TopicsShareTargets | lib/__init__.py:208 | the same item under two topics gets the same target |
| DotFiles.BareMarkerTarget | lib/__init__.py:207-213 | an item named exactly `.symlink` right below its topic targets a `.` segment under the target directory; deeper down, its target's last segment is empty (see "## Left out") |
| DotFiles.Abbreviate | lib/__init__.py:256-259 | a target under the home directory is shown as `~/...`, any other target unchanged |
| DotFiles.AbbreviateRoundTrip | lib/__init__.py:256-259 | expanding the shown `~` again restores the absolute target |
| DotFiles.Classify | lib/__init__.py:246-254 | up to date iff a link with the source text; update iff any other link, broken ones included; create iff nothing there; prompt iff a file or directory |
| DotFiles.Choice | lib/__init__.py:170 | an accepted key lower-cases to `s`, `b` or `u` and gives skip, backup or update accordingly |
| DotFiles.FirstAccepted | lib/__init__.py:164-167 | the answer is the first accepted key; every key before it is rejected, and none is accepted when there is no answer |
| DotFiles.AskAnswers | lib/__init__.py:137-175 | a sticky answer is returned without reading; otherwise keys are consumed through the first accepted one, whose case decides stickiness; no answer iff no key is accepted |
| DotFiles.EffectKeepsWellFormed | lib/__init__.py:99-104 | every command the reconciler runs keeps every entry in a directory |
| DotFiles.LinkEffect | lib/__init__.py:133-135 | on a free target with nothing in the way, the link to the source appears there; only missing parent directories are added, and nothing else changes |
| DotFiles.LinkEffectBlocked | lib/__init__.py:133-135 | on a free target with a file or a link on the way, both commands fail and nothing changes |
| DotFiles.LinkEffectLinks | lib/__init__.py:133-135 | linking a free target succeeds exactly when nothing on the way to it is a file or a link |
| DotFiles.Reconcile | lib/__init__.py:262-270 | skip, up to date and any dry run leave the filesystem as it is; no action changes an entry outside the target's subtree and its backup's |
| DotFiles.ReconcileAsWritten | lib/__init__.py:262-270 | with the plain `rm` of the source, the reconciliation is the corrected one except for a real update of a directory at the target |
| DotFiles.ReconcileLinks | lib/__init__.py:262-270 | after backup, update or create, classifying the target again says up to date exactly when nothing was in the way, which always holds for a target that existed |
| DotFiles.ClearedAside | lib/__init__.py:215-219 | backing up or removing the target frees its path and leaves the way to it as it was |
| DotFiles.ReconcileKeepsWellFormed | lib/__init__.py:262-270 | every action keeps every entry in a directory |
| DotFiles.ReconcileKeepsOthers | lib/__init__.py:262-270 | no entry outside the target's subtree (and the backup's) changes; skip, up to date and a dry run change nothing |
| DotFiles.ReconcileAddsOnly | lib/__init__.py:262-270 | a new entry is the link, a parent directory of the target or part of the backup |
| DotFiles.UpdateAsWrittenNestsLink | lib/__init__.py:218-219 | with `rm` as written, updating a directory leaves it in place and nests the link inside it, so it is still not up to date |
| DotFiles.UpdateReplacesDirectory | lib/__init__.py:267-270 | with recursive removal, updating a directory replaces it by the link and leaves nothing beneath it |
| DotFiles.StepReports | lib/__init__.py:240-270 | one item prints exactly one line; it halts iff a conflict finds no sticky answer and no accepted key; up to date, update and create lines match the classification |
| DotFiles.DryRunKeepsFs | lib/__init__.py:102-103 | a dry-run sync of any items leaves the filesystem unchanged |
| DotFiles.SyncItemsPrints | lib/__init__.py:240-270 | the sync loop prints one line per item processed, all of them unless it halts, and it halts only with the keys used up |
| DotFiles.SyncItemsKeepsWellFormed | lib/__init__.py:240-270 | the sync loop keeps every entry in a directory |
| DotFiles.SyncItemsKeepsPresent | lib/__init__.py:240-270 | an entry below no item's target and no backup name is there, unchanged, after the sync loop |
| DotFiles.SyncedLinkSurvivesClean | lib/__init__.py:240-286 | after the sync loop, a link to an item's source is not broken, so `clean` keeps it, whenever the path the source text stands for (its `.` segments dropped, so items at the top of the tree count too) exists and lies outside every target |
| DotFiles.RootSource | lib/__init__.py:201 | the source path `os.path.join` gives a walked item stands for the source directory, the item's directories and its name, even for an item at the top whose relative path starts with `.` |
| DotFiles.WriteMarker | lib/__init__.py:234-238 | a real run records the source directory in `.dotfiles-dir`, failing only on a directory there or a target directory that is not one; a dry run writes nothing |
| DotFiles.WriteMarkerKeepsWellFormed | lib/__init__.py:234-238 | writing the marker keeps every entry in a directory |
| DotFiles.RealRunLists | lib/__init__.py:234-280 | in a real run whose marker was written, the target directory is still a directory when `clean` lists it, so only a dry run can reach `os.listdir` on a non-directory |
| DotFiles.BrokenChildren | lib/__init__.py:274-275 | the candidates are exactly the immediate children of the target directory that are links to nothing existing |
| DotFiles.CleanVisit | lib/__init__.py:280-286 | each visited child is removed iff it was broken before the clean started, so earlier removals never change the verdict |
| DotFiles.CleanKeepsWellFormed | lib/__init__.py:280-286 | removing the broken children keeps every entry in a directory |
| Repo.DotFilesRepo.constructor | lib/__init__.py:124-131 | a new repository holds the given settings with no sticky answer, on a well-formed filesystem |
| Repo.DotFilesRepo.Run | lib/__init__.py:99-104 | a command changes the filesystem by its effect, or not at all under a dry run |
| Repo.DotFilesRepo.LinkSourceToTarget | lib/__init__.py:133-135 | the filesystem becomes the `mkdir -p` plus `ln -s` effect, or stays under a dry run |
| Repo.DotFilesRepo.BackupFile | lib/__init__.py:215-216 | the target is moved to its `.backup` name, or nothing changes under a dry run |
| Repo.DotFilesRepo.RemoveFile | lib/__init__.py:218-219 | the target's subtree is removed, or nothing changes under a dry run (the corrected removal of the Findings row) |
| Repo.DotFilesRepo.GetAction | lib/__init__.py:137-175 | the prompt loop consumes keys and updates the sticky answer exactly as the prompt specification says; it reports no answer with the keys used up |
| Repo.DotFilesRepo.DecideAction | lib/__init__.py:245-254 | the action is the classification's, asking only for a file or directory in the way |
| Repo.DotFilesRepo.Act | lib/__init__.py:262-270 | the filesystem becomes the reconciliation of the chosen action, and stays well-formed |
| Repo.DotFilesRepo.SyncOne | lib/__init__.py:240-270 | one item changes state and prints exactly as the sync step specification, or halts with the keys used up; the sticky answer stays answerable and the filesystem well-formed |
| Repo.DotFilesRepo.SyncAll | lib/__init__.py:240-270 | the loop over the walked items ends in the state and halting verdict of the sync specification, keeping the object's invariant |
| Repo.DotFilesRepo.CleanEntry | lib/__init__.py:281-286 | a broken child is reported with its path and removed (kept under a dry run); any other child is left alone and not reported |
| Repo.DotFilesRepo.Clean | lib/__init__.py:277-286 | it fails, as `os.listdir` raises, iff the target directory is not a directory, and then changes and prints nothing; otherwise exactly the broken immediate children are removed (none under a dry run), each reported once, nothing else changes, and the filesystem stays well-formed |
| Repo.DotFilesRepo.CleanListed | lib/__init__.py:280-286 | over the listed children, exactly the broken ones are removed (none under a dry run), each reported once, nothing else changes, and the filesystem stays well-formed |
| Repo.DotFilesRepo.Sync | lib/__init__.py:221-272 | marker, then every walked item in order, then clean; it aborts iff the marker cannot be written, ends with a listing failure iff the target directory is no directory when `clean` lists it, a dry run never touches the filesystem, and the object's invariant holds throughout |
| Document.Index | lib/__init__.py:430 | `v[key]` succeeds iff `v` is a mapping with the key; otherwise `KeyError` for a mapping, `TypeError` for anything else |
| Document.Find | lib/__init__.py:430 | a key is found iff some entry has it, and the value found is that of the first entry with the key |
| Document.Contains | lib/__init__.py:374 | `in` is key membership on a mapping, element membership on a list and substring occurrence on a string; it raises exactly for values that are not containers |
| Document.Occurs | lib/__init__.py:374 | a string occurs in another iff it equals the other's window of the same length at some position |
| Document.Get | lib/__init__.py:386-387 | `.get` gives null for an absent key and the entry for a present one; it raises exactly on a non-mapping |
| Document.Iterate | lib/__init__.py:375 | `list()` gives a mapping's keys in order, a list's items, or a string's one-character strings; it raises exactly on non-containers |
| Document.OnlyPlatform | lib/__init__.py:375 | `list(cond) == ["platform"]` iff the condition is a mapping with the single key `platform` or the list `["platform"]` |
| Document.Lookup | lib/__init__.py:428-431 | a failed dotted lookup fails with `KeyError` or `TypeError` only |
| Document.Substitute | lib/__init__.py:427-431 | the substitution loop ends with the dotted-path lookup's value or its first failure |
| Document.LookupAppend | lib/__init__.py:429-430 | looking up a path is looking up a prefix and then the rest from its value |
| Document.LookupNest | lib/__init__.py:428-431 | a value placed under a dotted path is found by looking that path up |
| Document.LookupStray | lib/__init__.py:430 | a path that leaves the document's keys at some step fails with `KeyError` |
| SystemCheck.EqualLine | lib/__init__.py:312-326 | `pass` iff the value equals the expected value; otherwise `warn` or `fail` by the flag, with both values in the message |
| SystemCheck.SshKey | lib/__init__.py:351-361 | the fingerprint is the second word without `MD5:`; it is "not found" on failure and an error iff fewer than two words |
| SystemCheck.SshKeyOfListing | lib/__init__.py:359-361 | for any `ssh-keygen` listing `<bits> MD5:<fp> ...`, with any runs of whitespace around and between the words (the trailing newline included), the fingerprint read is exactly `<fp>` |
| SystemCheck.GpgVerdict | lib/__init__.py:365-371 | a listed key always passes; an unlisted key passes iff the expected value is the text "not found" |
| SystemCheck.IdentityOrder | lib/__init__.py:332-334 | when no identity check raises, exactly three lines are printed: username, SSH key, GPG key, in that order |
| SystemCheck.IdentityFirst | lib/__init__.py:329-337 | the identity lines come before all category lines, and an identity exception means no category runs |
| SystemCheck.Noun | lib/__init__.py:400 | "executable" exactly for a count of one |
| SystemCheck.ListedNames | lib/__init__.py:393 | one name per comma-separated piece, each the piece stripped of whitespace |
| SystemCheck.ListedNamesOfJoin | lib/__init__.py:393 | names written as `a, b, c` are read back exactly |
| SystemCheck.CollectMissing | lib/__init__.py:395-398 | the loop collects exactly the listed names that are not on the path |
| SystemCheck.ExecutablesVerdict | lib/__init__.py:389-412 | nothing for an empty list; `fail` iff some name is missing, listing exactly the missing set; otherwise `pass` with the count of listed names; "executable" only for one |
| SystemCheck.Expected | lib/__init__.py:425-431 | a plain string is expected as is; a `$` string is looked up and fails only by `KeyError`/`TypeError`; a non-string raises |
| SystemCheck.SubstitutedPath | lib/__init__.py:427-431 | `$a.b.c` expects exactly the value at `a`, `b`, `c` in the document |
| SystemCheck.RunItemVerdict | lib/__init__.py:418-439 | a malformed item or one without `cmd` warns; one without `equal` warns; otherwise `pass` iff the output, stripped, equals the expected value, else `fail` |
| SystemCheck.RunItemsReport | lib/__init__.py:418-439 | every run item line is `pass`, `fail` or `warn` at the block indent, one per item when none raises |
| SystemCheck.RunItemsStop | lib/__init__.py:418-431 | an exception in an item ends the run items there: earlier lines are kept, later items are not evaluated |
| SystemCheck.GateOfPlatform | lib/__init__.py:380-382 | a category gated on a platform runs iff that platform is the current one |
| SystemCheck.GateRejects | lib/__init__.py:374-379 | a condition mapping whose keys are not exactly `platform` raises `ValueError` |
| SystemCheck.SkippedCategory | lib/__init__.py:380-382 | a skipped category prints one `skip` line and runs neither executables nor run items |
| SystemCheck.FaultEndsCategory | lib/__init__.py:384-387 | an exception in a run item silently ends the category after the lines printed so far, with no exception escaping |
| Checker.SystemChecker.constructor | lib/__init__.py:296-298 | a checker gets its own logger at indent 0 on the shared terminal |
| Checker.SystemChecker.Equal | lib/__init__.py:312-326 | exactly one line is printed at the checker's own indent, with the comparison's verdict |
| Checker.SystemChecker.CheckUsername | lib/__init__.py:348-349 | prints the username comparison, or raises when `USER` is unset |
| Checker.SystemChecker.CheckSsh | lib/__init__.py:351-363 | prints the fingerprint comparison, or raises when the listing cannot be read |
| Checker.SystemChecker.CheckGpg | lib/__init__.py:365-371 | prints the GPG verdict of its specification |
| Checker.SystemChecker.CheckIdentity | lib/__init__.py:332-334 | the three identity checks print and raise as their specification does, stopping at the first exception |
| Checker.SystemChecker.CheckExecutables | lib/__init__.py:389-412 | prints the executables verdict of its specification at the current indent |
| Checker.SystemChecker.CheckRunItem | lib/__init__.py:419-439 | one run item prints or raises exactly as its specification |
| Checker.SystemChecker.CheckRunItems | lib/__init__.py:414-439 | the loop over the run items prints their lines in order and stops at the first exception |
| Checker.SystemChecker.CheckBody | lib/__init__.py:386-387 | executables, then run items, stopping at the first exception |
| Checker.SystemChecker.CheckCategory | lib/__init__.py:373-387 | prints the category as its specification (skip, or topic then the body one level deeper) and restores the indent |
| Checker.SystemChecker.CheckThings | lib/__init__.py:336-337 | the categories are checked in document order; the indent is restored |
| Checker.SystemChecker.Run | lib/__init__.py:329-337 | the whole check prints and raises as its specification: identity first, then every category |

## Left out

- The command-line interface, option parsing and the import guards: they are argument plumbing.
- YAML loading and its parse-error exit: the model starts from the parsed value tree.
- Colours, `str.center` padding, the `task` banner, the verbose command echo and the prompt text: the model keeps only each status line's indent, status and message.
- The colour lookup in `ACTION_COLOR_DICT` and its unknown-action error: `lib/config.py` is not part of this model.
- `subprocess`, `shlex`, `shutil.which`, `platform.system()` and `os.environ["USER"]`: these are oracles in `Env`. The effects of `mkdir -p`, `ln -s`, `mv` and `rm` are map updates.
- Python equality across types (`1 == True`, floats): YAML floats and non-string mapping keys are not modelled. Equality is structural on the value tree.
- SystemCheck.Executables: the missing names are a set. The order of the printed names (set iteration order) is not modelled.
- Repo.DotFilesRepo.GetAction: running out of keys ends the sync as `Halted`. The real prompt would wait for more input.
- Repo.DotFilesRepo.Sync:
  - A `.dotfiles-dir` link is overwritten as a file. A real `open` would write through the link.
  - The source tree is a given `Entry` tree, not a view of the filesystem map.
- FileSystem.Reaches: every directory component of a path is taken to be a real directory. A link among the components is not followed, so `exists` (and `Exists`) is false for a path that lies below a link to a directory.
- DotFiles.Classify: it inherits this. A target whose way passes through a link to a directory is classified as missing when it is there.
- FileSystem.MkdirP: a link to a directory on the path counts as in the way, so `mkdir -p` fails there. `LnS` and `DotFiles.WriteMarker` likewise take such a link to be no directory; the real commands get through.
- FileSystem.LnS: a target that is a link to a directory is left alone. GNU `ln -s` would place the new link inside that directory.
- FileSystem.MoveTree: an existing `.backup` entry is replaced with everything under it. A real `mv` into an existing `.backup` directory puts the target inside that directory instead.
- Text.Fields: its own contract states only the shape of the fields. Their values are stated by `Text.FieldsOfSpread` and `Text.SpreadFields`.
- Document.Find: a mapping with a repeated key is read at its first entry, and `things` visits every entry. PyYAML keeps one entry per key, holding the last value. The model is exact for mappings whose keys are distinct.
- Repo.DotFilesRepo.RemoveFile: it uses the corrected recursive removal (see Findings), not the plain `rm` at lib/__init__.py:219. That `rm` refuses a directory, so the link is then nested inside the directory (`DotFiles.UpdateAsWrittenNestsLink`). The as-written removal is `FileSystem.RmAsWritten`, and the as-written reconciliation is `DotFiles.ReconcileAsWritten`.
- DotFiles.Reconcile: its update uses the corrected recursive removal, as `Repo.DotFilesRepo.RemoveFile` does.
- DotFiles.ReconcileLinks: it is proved about the corrected removal. As written, an update of a directory does not link it (`DotFiles.UpdateAsWrittenNestsLink`).
- DotFiles.ReconcileAddsOnly: it is proved about the corrected removal. As written, an update of a directory adds the link inside the directory instead.
- Repo.DotFilesRepo.Act: it runs the corrected removal for an update.
- Repo.DotFilesRepo.SyncOne: it runs the corrected removal for an update, and it takes the `.` or empty target segment of an item named exactly `.symlink` literally (see `DotFiles.ComputeTarget`).
- Repo.DotFilesRepo.SyncAll: it runs the corrected removal for an update, and it takes the `.` or empty target segment of an item named exactly `.symlink` literally (see `DotFiles.ComputeTarget`).
- Repo.DotFilesRepo.Sync: it runs the corrected removal for an update, and it takes the `.` or empty target segment of an item named exactly `.symlink` literally (see `DotFiles.ComputeTarget`).
- DotFiles.SyncedLinkSurvivesClean: it assumes the walked sources exist in the filesystem, because the source tree is a separate `Entry` tree. `DotFiles.RootSource` shows the premise is stated on the path every walked item's source text stands for, items at the top of the tree included.
- DotFiles.ComputeTarget: it requires at least two segments. The walk always yields that many.
- DotFiles.ComputeTarget: an item named exactly `.symlink` gives the target a `.` segment right below its topic, or an empty last segment deeper down (`DotFiles.BareMarkerTarget`). The model keeps these segments literally. `os.path.join` makes them the target directory itself, or a directory path with a trailing `/`, so the source prompts on that directory or nests the link inside it.
- DotFiles.Classify: a target with such a `.` or empty segment is looked up literally, so it is classified as missing where the source finds the directory it names.
- Repo.DotFilesRepo.Clean: a target directory that is a link to a directory counts as no directory, so `Clean` fails where `os.listdir` would list the linked directory.
- Walk.FindFilesToSymlink: `.git` is pruned only as a directory, as in the source. Names are compared as plain text, and no Unicode normalisation is done.

## Findings

| source | as written | input that shows it | evidently intended | confidence | as-written member | corrected member |
|---|---|---|---|---|---|---|
| lib/__init__.py:218-219 | `update` removes the target with plain `rm`, which fails on a directory, and then links | a directory in the way of a link, with the user answering `u` (update) | the directory is replaced by the link | not executed | DotFiles.UpdateAsWrittenNestsLink | DotFiles.UpdateReplacesDirectory |
