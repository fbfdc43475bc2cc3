# fwatch routing core in Dafny

fwatch watches one directory and moves each newly created or written file into
the destination directory of the configured rule that claims its extension. This
project models the per-file routing pipeline of `main.go` and proves its
properties:

- the **extension index** built from the ordered rules (a later rule wins);
- the **event filter** that admits only Create and Write events;
- **processFile**: the four silent or logged skips, routing by the lower-cased
  extension, and the single timestamped retry on a name collision;
- **moveFile**: rename first, and copy-then-delete only on a cross-device failure;
- **copyAndDelete**: open, stat, create/truncate, copy, sync and remove, each failure
  ending the operation.

The filesystem is an immutable map from path to entry. A file holds its bytes and
mode. A directory is a leaf holding only its mode. Every operation is a pure
function that returns the new map together with its result. Failures the map
cannot explain are answered by an oracle passed in as a parameter (`Move.Faults`,
`Pipeline.Env`): permission errors, I/O errors, a full disk, a missing parent
directory, and stat failures. Which device each path lives on is also part of the
oracle. A parent directory that cannot be resolved (ENOENT, EACCES) is reported by
os.Rename before anything else. Otherwise rename(2) reports EXDEV exactly when the
two paths' devices differ, so a path never crosses a device to itself. The clock
is replaced by a `Timestamp` argument: a string in Go's `20060102-150405` layout.

Files: `options.dfy` (Option), `strings.dfy` (ASCII lower-casing, TrimSuffix,
Contains), `paths.dfy` (filepath.Ext, Base, Join), `rules.dfy` (extension index),
`filesystem.dfy` (entries, errno values), `move.dfy` (rename, copyAndDelete,
moveFile), `pipeline.dfy` (filter, processFile, event loop).

Points where main.go behaves differently from what one might expect:

- An existing destination opened with `O_CREATE|O_TRUNC` keeps its own mode. Only a
  newly created destination gets the source's mode (`Move.CopyAndDelete`).
- TrimSuffix removes the extension only when the file's own extension is already
  lower case. Otherwise the stamp and the lower-cased extension follow the whole
  name: `A.PDF` becomes `A.PDF-<stamp>.pdf`.
- A stamped name that already exists is not checked again. The rename replaces a
  file there, and fails with EEXIST if a directory is there.
- Matching error text is fragile, so `Move.MoveFile` decides by the error kind, and
  `Move.MoveFileAsWritten` keeps the text match (see Findings).

## Model

| member | source | states |
|---|---|---|
| Rules.AddExtensions | main.go:146-149 | after one rule's extensions are added, the keys are the old keys plus each lower-cased extension; each of those maps to the rule's destination, and every other key keeps its old value |
| Rules.BuildExtensionMap | main.go:143-152 | the index's keys are exactly the lower-cased extensions of all rules; a key maps to the destination of the last rule, in input order, that claims it |
| Rules.KeysAreLower | main.go:148 | every key of the index is lower case |
| Rules.RouteFollowsLastRule | main.go:143-152 | the lookup processFile does (lower-case, then index) finds the last rule claiming the extension in any letter case, and finds nothing exactly when no rule claims it; `.ZIP` and `.zip` route alike |
| Rules.LaterRuleWins | main.go:145-148 | of two rules claiming one extension, the later one wins unless a still later one claims it too |
| Paths.Ext | main.go:170 | filepath.Ext gives a suffix of the path that is empty or a '.' followed by neither '.' nor '/'; it is empty only when every '.' has a '/' after it |
| Paths.BaseEndsWithExt | main.go:182 | a path with an extension has a non-empty final element without separators, and that element ends with the extension |
| Paths.BaseOfJoin | main.go:182-183 | Base of Join(dir, name) is the name again |
| Paths.ExtOfSuffix | main.go:190 | a path that ends in an extension has that extension, whatever comes before it |
| Move.Rename | main.go:206-209 | os.Rename succeeds exactly when the source exists, the target is not a directory, both parent directories resolve, the devices match, no other fault occurs, and it is not a directory over a file; a parent that cannot be resolved is reported before the directory-target check; it reports EXDEV exactly for a device change between a non-directory target and resolvable parents; on success the target holds the source entry and the source is gone; a failure changes nothing |
| Move.CopyAndDelete | main.go:222-259 | steps run in order, and the first failure ends the operation; success needs no fault, a regular source and a non-directory target; the result is then the source's bytes at the target, with the source's mode if the target is new, and the source removed; no step before creation changes anything; a failure leaves the source intact and at most a prefix of its bytes at the target |
| Move.LookupFailureIsFinal | main.go:206-218 | a parent directory that cannot be resolved, a missing destination directory included, is returned as the rename's error whatever the target is and even across devices, and nothing is copied |
| Move.CopyOntoItselfLosesFile | main.go:237-256 | copyAndDelete onto its own source truncates, then removes it, and still reports success; a hazard of copyAndDelete alone, since moveFile never calls it for a path onto itself |
| Move.MoveFile | main.go:204-219 | a rename result (success or error) is final unless it is EXDEV; on EXDEV, which needs resolvable parents and a device change, the outcome is copyAndDelete's; a same-device move keeps the entry and its mode; the source disappears only when the target holds its content; no other path is touched |
| Move.MoveFileAsWritten | main.go:211-215 | matching the error text agrees with the kind-based move except when a non-EXDEV error's text contains the phrase |
| Move.TextTestCatchesCrossDevice | main.go:213 | every EXDEV rename error's text contains "invalid cross-device link" |
| Move.TextTestMatchesPhraseInPath | main.go:213 | the text test also fires on any error when the source path contains the phrase |
| Move.TextTestMisfires | main.go:211-218 | for such a path, a rename refused with EACCES is returned as is by the kind-based move, but the text-based move copies and deletes the file |
| Pipeline.ActionableMask | main.go:128 | an event passes the filter exactly when its op shares a bit with Create or Write |
| Pipeline.HandleEvent | main.go:127-132 | an event without the Create or Write bit changes nothing and is ignored; any other event is processed |
| Pipeline.Decide | main.go:154-192 | processFile skips with the stat error (ENOENT for a missing entry), for a directory, for no extension, and for an unclaimed extension, each exactly in its case; otherwise it moves to a target that is never the file itself and keeps its lower-cased extension |
| Pipeline.DestinationKeepsExtension | main.go:182-191 | the target the resolver picks differs from the file's path and has the file's extension up to letter case; the own name is picked only when stat finds nothing there, which rules out the file itself |
| Pipeline.StampedNameShape | main.go:189-190 | the stamped name is longer than the name; if the extension is lower case, it is the name's stem, the stamp and the extension; otherwise it is the whole name, the stamp and the lower-cased extension |
| Pipeline.CollisionNaming | main.go:182-191 | the target lies in the rule's directory; it keeps the file's name when nothing is there; otherwise it differs from that path and carries "-<stamp>" before the lower-cased extension, or after the whole name when the extension is not lower case |
| Pipeline.MixedCaseNameNotTrimmed | main.go:186-190 | "A.PDF" on a collision becomes "A.PDF-<stamp>.pdf" |
| Pipeline.ProcessFile | main.go:154-201 | a skip leaves the filesystem unchanged; a completed move leaves the file's bytes at the decided target and the file gone; the file is never gone unless it was moved; only the file and the target are touched |
| Pipeline.QuietSkips | main.go:156-179 | a skip is unlogged exactly when the entry is gone, is a directory, has no extension or has an unclaimed one |
| Pipeline.RoutedToLastRule | main.go:154-201 | on one device, with no stat, lookup or rename fault and no directory at the stamped name, a file whose extension a rule claims is moved with its entry into the last claiming rule's directory; it keeps its own name when that is free; every other entry, any occupant of that name included, stays unchanged |
| Pipeline.Watch | main.go:118-132 | the index is built once from the rules and every delivery is handled by Loop with it: one outcome per delivery, Ignored exactly when the filter drops it |
| Pipeline.Loop | main.go:120-132 | the loop gives one outcome per event; an event is ignored exactly when the filter drops it; if every event is dropped, the filesystem is unchanged |
| Pipeline.LoopSnoc | main.go:120-132 | one more event is handled on the filesystem the earlier events left, and its outcome is appended |
| Pipeline.LoopPrefix | main.go:120-132 | later events never change earlier outcomes: the first k outcomes are those of the first k events alone |
| Pipeline.LoopInOrder | main.go:120-132 | events are handled in arrival order: outcome i is what handling event i gives on the filesystem the first i events left, nothing else writing in between |
| Pipeline.DroppedEventsChangeNothing | main.go:127-132 | filtered-out events arriving after any others leave the filesystem as it was, add one Ignored outcome each, and keep the earlier outcomes |

## Left out

- `main`, flag parsing, version output and `getDefaultConfigPath` (main.go:35-87): process startup and environment lookups.
- `loadConfig` (main.go:89-101): file reading and YAML decoding by an external library. The model takes the parsed rule list.
- Creating destination directories with `MkdirAll` (main.go:74-80): setup done before watching.
- The watcher loop itself (main.go:103-141): fsnotify setup, the `select` over the event and error channels, termination when a channel closes, and the 100 ms sleep. These are concurrency, timing and a foreign library. `Pipeline.Watch` builds the index once (main.go:118) and `Pipeline.Loop` keeps only the sequential order of handling.
- `time.Now().Format(...)` (main.go:188): replaced by a `Timestamp` argument.
- Log output: only which outcomes would be logged is modelled (`Pipeline.Logs`).
- Errors from the deferred `Close` calls: the source ignores them too.
- Durability: `Sync` is modelled as a step that can fail. Writes to disk are not modelled.
- Strings.Lower: lower-cases ASCII letters only, because Go's Unicode case mapping is not modelled.
- Paths.Join: no `filepath.Clean` normalisation (`..`, `.`, repeated separators). Directories are taken as already clean.
- Symbolic links, hard links, special files (FIFOs, sockets, devices), the umask and case-insensitive filesystems are not modelled. processFile checks only for a directory (main.go:165), so a special file would be renamed, or on a cross-device move opened by `os.Open`, which can block on a FIFO.
- Directory contents: a directory is a leaf, so renaming one does not carry its entries along. processFile never moves directories.
- Move.CopyAndDelete: the destination gets the source's mode only when it is newly created. An existing destination keeps its own mode, as `O_CREATE|O_TRUNC` does.
- Pipeline.RoutedToLastRule: assumes no directory at the stamped name. If one is there, the rename fails with EEXIST.
- Races between the collision check and the move: nothing else changes the filesystem while one event is handled.
- Pipeline.LoopInOrder: the filesystem passes from one event to the next with no outside change. In the program each event sees the live directory, including files other processes wrote since the previous event; a file recreated at a moved path after its first move is not in the model's filesystem, so its event ends as a missing-file skip.

## Findings

| source | as written | input that shows it | evidently intended | confidence | as-written member | corrected member |
|---|---|---|---|---|---|---|
| main.go:213 | the copy fallback runs whenever the rename error's text contains "invalid cross-device link" | rename of `/in/invalid cross-device link.txt` to `/docs/invalid cross-device link.txt` refused with EACCES: the text is "rename /in/invalid cross-device link.txt /docs/...: permission denied", so copy-and-delete runs | fall back only when the rename fails with EXDEV | not executed; medium | Move.MoveFileAsWritten | Move.MoveFile |
