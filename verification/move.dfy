/**
 * The move engine: moveFile tries a rename and, only when the rename fails
 * because source and destination are on different devices, falls back to
 * copyAndDelete (open, stat, create/truncate, copy, sync, remove the source).
 *
 * Failures the model cannot derive from the filesystem map (permissions, a full
 * disk, I/O errors, a missing parent directory) come from a Faults oracle, one
 * entry per primitive call, and one for rename(2) resolving the parent
 * directories, which happens before it compares devices. Whether a rename crosses devices is decided by the
 * oracle's device assignment, so a path never crosses a device to itself.
 */
module Move {
  import opened Options
  import opened Strings
  import opened Paths
  import opened FileSystem

  /** Any error but EXDEV: that one arises only from an actual change of device. */
  type OtherErrno = e: Errno | e != CrossDevice witness PermissionDenied

  /** io.Copy failing after `written` bytes reached the destination. */
  datatype CopyFault = CopyFault(written: nat, errno: Errno)

  datatype Faults = Faults(
    device: Path -> nat,
    lookup: Option<OtherErrno>,
    rename: Option<OtherErrno>,
    open: Option<Errno>,
    stat: Option<Errno>,
    create: Option<Errno>,
    copy: Option<CopyFault>,
    sync: Option<Errno>,
    remove: Option<Errno>)

  predicate CrossesDevice(f: Faults, src: Path, dst: Path) {
    f.device(src) != f.device(dst)
  }

  /** The steps of copyAndDelete, in the order they run. */
  datatype Step = OpenSource | StatSource | CreateDest | CopyContent | SyncDest | RemoveSource

  const AllSteps: seq<Step> := [OpenSource, StatSource, CreateDest, CopyContent, SyncDest, RemoveSource]

  /**
   * What moveFile returns on failure: the rename's own error (an os.LinkError),
   * or the error of the copyAndDelete step that failed, wrapped with that step.
   */
  datatype MoveError =
    | RenameFailed(from: Path, to: Path, errno: Errno)
    | StepFailed(step: Step, errno: Errno)

  datatype RenameResult = RenameResult(fs: Fs, err: Option<Errno>)

  /** The filesystem after copyAndDelete, the steps that completed, and the error if one failed. */
  datatype CopyReport = CopyReport(fs: Fs, done: seq<Step>, err: Option<MoveError>)

  datatype MoveResult = MoveResult(fs: Fs, err: Option<MoveError>)

  /** Both entries are files with the same bytes, or both are directories. */
  predicate SameContent(a: Node, b: Node) {
    (a.File? && b.File? && a.data == b.data) || (a.Dir? && b.Dir?)
  }

  /**
   * os.Rename on Linux. A parent directory that cannot be resolved (ENOENT,
   * EACCES) fails Go's Lstat of the paths and rename(2) alike, so that error
   * comes first. Otherwise Go refuses a destination that is a directory (ENOENT
   * if the source is missing, else EEXIST); then rename(2) reports EXDEV across
   * devices, ENOENT for a missing source, the oracle's error, and ENOTDIR for a
   * directory over a file. On success the source entry, mode included,
   * replaces whatever was at the destination.
   */
  function Rename(fs: Fs, src: Path, dst: Path, f: Faults): (r: RenameResult)
    ensures r.err.None? <==>
      && src in fs && !IsDir(fs, dst) && f.lookup.None? && !CrossesDevice(f, src, dst) && f.rename.None?
      && !(fs[src].Dir? && IsFile(fs, dst))
    ensures r.err == Some(CrossDevice) <==> CrossesDevice(f, src, dst) && !IsDir(fs, dst) && f.lookup.None?
    ensures r.err.Some? ==> r.fs == fs
    ensures r.err.None? ==> dst in r.fs && r.fs[dst] == fs[src] && (src != dst ==> src !in r.fs)
    ensures r.fs - {src, dst} == fs - {src, dst}
  {
    if f.lookup.Some? then
      RenameResult(fs, Some(f.lookup.value))
    else if IsDir(fs, dst) then
      RenameResult(fs, Some(if src !in fs then NotExist else Exists))
    else if CrossesDevice(f, src, dst) then
      RenameResult(fs, Some(CrossDevice))
    else if src !in fs then
      RenameResult(fs, Some(NotExist))
    else if f.rename.Some? then
      RenameResult(fs, Some(f.rename.value))
    else if fs[src].Dir? && IsFile(fs, dst) then
      RenameResult(fs, Some(NotDirectory))
    else if src == dst then
      RenameResult(fs, None)
    else
      RenameResult((fs - {src})[dst := fs[src]], None)
  }

  /** A copyAndDelete step failed with `e`, after the steps in `done`. */
  function Fail(fs: Fs, done: seq<Step>, step: Step, e: Errno): CopyReport {
    CopyReport(fs, done, Some(StepFailed(step, e)))
  }

  /** True when copyAndDelete meets no failure at all. */
  predicate CopySucceeds(fs: Fs, src: Path, dst: Path, f: Faults) {
    && IsFile(fs, src) && !IsDir(fs, dst)
    && f.open.None? && f.stat.None? && f.create.None? && f.copy.None? && f.sync.None? && f.remove.None?
  }

  /**
   * copyAndDelete. Each failing step ends the operation. The destination is
   * created with the source's mode, or truncated in place (keeping its own mode)
   * if it exists; the bytes are read from the source after that truncation; the
   * source is removed last. A partially written destination is left in place.
   */
  function CopyAndDelete(fs: Fs, src: Path, dst: Path, f: Faults): (r: CopyReport)
    // each step runs only after every earlier step succeeded
    ensures r.done <= AllSteps
    ensures r.err.None? <==> r.done == AllSteps
    ensures r.err.Some? ==> r.err.value.StepFailed? && |r.done| < |AllSteps| && r.err.value.step == AllSteps[|r.done|]
    ensures r.err.None? <==> CopySucceeds(fs, src, dst, f)
    // only source and destination are touched, and nothing before the destination is created
    ensures r.fs - {src, dst} == fs - {src, dst}
    ensures CreateDest !in r.done ==> r.fs == fs
    // success: the destination holds the source's bytes, with the source's mode if it is new
    ensures r.err.None? && src != dst ==> (
      && src !in r.fs && dst in r.fs
      && r.fs[dst] == File(fs[src].data, if dst in fs then fs[dst].mode else fs[src].mode))
    // failure leaves a distinct source intact; a written destination holds a prefix of its bytes
    ensures src != dst && r.err.Some? ==> r.fs - {dst} == fs - {dst}
    ensures src != dst && CreateDest in r.done ==> IsFile(r.fs, dst) && (IsFile(fs, src) ==> r.fs[dst].data <= fs[src].data)
  {
    if src !in fs then Fail(fs, [], OpenSource, NotExist)
    else if f.open.Some? then Fail(fs, [], OpenSource, f.open.value)
    else if f.stat.Some? then Fail(fs, [OpenSource], StatSource, f.stat.value)
    else if IsDir(fs, dst) then Fail(fs, [OpenSource, StatSource], CreateDest, IsDirectory)
    else if f.create.Some? then Fail(fs, [OpenSource, StatSource], CreateDest, f.create.value)
    else
      var mode := if dst in fs then fs[dst].mode else fs[src].mode;
      var created := fs[dst := File([], mode)];
      var upToCreate := [OpenSource, StatSource, CreateDest];
      if created[src].Dir? then Fail(created, upToCreate, CopyContent, IsDirectory)
      else
        var data := created[src].data;
        if f.copy.Some? then
          var n := if f.copy.value.written < |data| then f.copy.value.written else |data|;
          Fail(created[dst := File(data[..n], mode)], upToCreate, CopyContent, f.copy.value.errno)
        else
          var copied := created[dst := File(data, mode)];
          if f.sync.Some? then Fail(copied, upToCreate + [CopyContent], SyncDest, f.sync.value)
          else if f.remove.Some? then Fail(copied, upToCreate + [CopyContent, SyncDest], RemoveSource, f.remove.value)
          else CopyReport(copied - {src}, AllSteps, None)
  }

  /**
   * moveFile. A successful rename is the whole move; a rename that fails with
   * EXDEV hands over to copyAndDelete; any other rename error is returned as it is.
   */
  function MoveFile(fs: Fs, src: Path, dst: Path, f: Faults): (r: MoveResult)
    // the three outcomes
    ensures !CrossesDevice(f, src, dst) || IsDir(fs, dst) || f.lookup.Some? ==>
      var rn := Rename(fs, src, dst, f);
      r.fs == rn.fs && (r.err.None? <==> rn.err.None?) && (rn.err.Some? ==> r.err == Some(RenameFailed(src, dst, rn.err.value)))
    ensures CrossesDevice(f, src, dst) && !IsDir(fs, dst) && f.lookup.None? ==>
      var c := CopyAndDelete(fs, src, dst, f);
      r.fs == c.fs && r.err == c.err
    // a same-device move keeps the source entry exactly, mode included
    ensures r.err.None? && !CrossesDevice(f, src, dst) ==> dst in r.fs && r.fs[dst] == fs[src]
    // the source disappears only when the destination holds its content
    ensures src in fs && src !in r.fs ==> r.err.None? && dst in r.fs && SameContent(fs[src], r.fs[dst])
    ensures r.err.None? ==> src in fs && dst in r.fs && SameContent(fs[src], r.fs[dst]) && (src != dst ==> src !in r.fs)
    ensures r.fs - {src, dst} == fs - {src, dst}
  {
    var rn := Rename(fs, src, dst, f);
    if rn.err.None? then MoveResult(rn.fs, None)
    else if rn.err.value == CrossDevice then
      var c := CopyAndDelete(fs, src, dst, f);
      MoveResult(c.fs, c.err)
    else MoveResult(fs, Some(RenameFailed(src, dst, rn.err.value)))
  }

  /**
   * A parent directory that cannot be resolved (missing, or not searchable) is
   * reported before any other check, so moveFile returns that error, whatever
   * the target is and even across devices, and never copies.
   */
  lemma LookupFailureIsFinal(fs: Fs, src: Path, dst: Path, f: Faults)
    requires f.lookup.Some?
    ensures MoveFile(fs, src, dst, f) == MoveResult(fs, Some(RenameFailed(src, dst, f.lookup.value)))
  {
  }

  /**
   * copyAndDelete onto its own source truncates it before reading it and then
   * removes it, reporting success. moveFile never gets here: a path is on the
   * same device as itself, so the rename handles it.
   */
  lemma CopyOntoItselfLosesFile(fs: Fs, p: Path, f: Faults)
    requires CopySucceeds(fs, p, p, f)
    ensures CopyAndDelete(fs, p, p, f).err.None?
    ensures p !in CopyAndDelete(fs, p, p, f).fs
  {
  }

  /** The text of the os.LinkError a failed rename returns: "rename OLD NEW: reason". */
  function LinkErrorText(src: Path, dst: Path, e: Errno): string {
    LinkText(src, dst, Message(e))
  }

  function LinkText(src: Path, dst: Path, reason: string): string {
    "rename " + src + " " + dst + ": " + reason
  }

  const CrossDevicePhrase: string := "invalid cross-device link"

  /** moveFile's actual test for EXDEV: the error's text contains the EXDEV message. */
  predicate MentionsCrossDevice(src: Path, dst: Path, e: Errno) {
    Contains(LinkErrorText(src, dst, e), CrossDevicePhrase)
  }

  /**
   * moveFile as written, deciding on the fallback by searching the error text.
   * It agrees with MoveFile except when a rename fails for another reason and the
   * text still contains the phrase, which happens when a path contains it.
   */
  function MoveFileAsWritten(fs: Fs, src: Path, dst: Path, f: Faults): (r: MoveResult)
    ensures var rn := Rename(fs, src, dst, f);
      (rn.err.None? || rn.err.value == CrossDevice || !MentionsCrossDevice(src, dst, rn.err.value)) ==>
      r == MoveFile(fs, src, dst, f)
  {
    TextTestCatchesCrossDevice(src, dst);
    var rn := Rename(fs, src, dst, f);
    if rn.err.None? then MoveResult(rn.fs, None)
    else if MentionsCrossDevice(src, dst, rn.err.value) then
      var c := CopyAndDelete(fs, src, dst, f);
      MoveResult(c.fs, c.err)
    else MoveResult(fs, Some(RenameFailed(src, dst, rn.err.value)))
  }

  /** The text test never misses a real EXDEV: its message ends the error text. */
  lemma TextTestCatchesCrossDevice(src: Path, dst: Path)
    ensures MentionsCrossDevice(src, dst, CrossDevice)
  {
    ContainsSuffix(LinkErrorText(src, dst, CrossDevice), CrossDevicePhrase);
  }

  /** The text test fires on any rename error when the source path contains the phrase. */
  lemma TextTestMatchesPhraseInPath(pre: string, post: string, dst: Path, e: Errno)
    ensures MentionsCrossDevice(pre + CrossDevicePhrase + post, dst, e)
  {
    PhraseInPathInText(pre, post, dst, Message(e));
  }

  lemma PhraseInPathInText(pre: string, post: string, dst: Path, reason: string)
    ensures Contains(LinkText(pre + CrossDevicePhrase + post, dst, reason), CrossDevicePhrase)
  {
    var text := LinkText(pre + CrossDevicePhrase + post, dst, reason);
    var before := "rename " + pre;
    var after := post + " " + dst + ": " + reason;
    assert text == before + CrossDevicePhrase + after;
    OccursInMiddle(before, CrossDevicePhrase, after);
    ContainsAt(text, CrossDevicePhrase, |before|);
  }

  /**
   * So a rename refused for another reason, of a file whose path contains the
   * phrase, is followed by copy-and-delete in the as-written move (here moving
   * the file despite the refusal), where the kind-based test returns the
   * refusal untouched.
   */
  lemma TextTestMisfires(pre: string, post: string, dst: Path, fs: Fs, f: Faults)
    requires IsFile(fs, pre + CrossDevicePhrase + post) && dst !in fs
    requires !CrossesDevice(f, pre + CrossDevicePhrase + post, dst)
    requires f.lookup.None? && f.rename == Some(PermissionDenied)
    requires CopySucceeds(fs, pre + CrossDevicePhrase + post, dst, f)
    ensures var src := pre + CrossDevicePhrase + post;
      && MoveFile(fs, src, dst, f) == MoveResult(fs, Some(RenameFailed(src, dst, PermissionDenied)))
      && MoveFileAsWritten(fs, src, dst, f).err.None?
      && src !in MoveFileAsWritten(fs, src, dst, f).fs
  {
    TextTestMatchesPhraseInPath(pre, post, dst, PermissionDenied);
  }
}
