/**
 * The per-event pipeline of watchDirectory: the Create/Write filter, then
 * processFile (stat, skip directories, route by lower-cased extension, resolve
 * a name collision with one timestamped retry, move), and the sequential loop
 * that handles one event after another.
 *
 * The clock is replaced by a timestamp string handed to each call, and stat
 * failures other than a missing entry come from an oracle in the environment.
 */
module Pipeline {
  import opened Options
  import opened Strings
  import opened Paths
  import opened Rules
  import opened FileSystem
  import opened Move

  /** fsnotify.Op: a bit set of the kinds of change an event reports. */
  type Op = bv32

  const CreateOp: Op := 1
  const WriteOp: Op := 2
  const RemoveOp: Op := 4
  const RenameOp: Op := 8
  const ChmodOp: Op := 16

  datatype Event = Event(name: Path, op: Op)

  /** watchDirectory's filter: the event has the Create bit or the Write bit. */
  predicate Actionable(op: Op) {
    op & CreateOp == CreateOp || op & WriteOp == WriteOp
  }

  /**
   * The filter in one mask: exactly the events sharing a bit with Create|Write
   * pass, so pure Remove, Rename and Chmod events, and their combinations, do not.
   */
  lemma ActionableMask(op: Op)
    ensures Actionable(op) <==> op & (CreateOp | WriteOp) != 0
  {
  }

  /** The world the pipeline observes besides the filesystem map. */
  datatype Env = Env(statError: Path -> Option<Errno>, faults: Faults)

  /** os.Stat: ENOENT for a missing entry, else whatever the oracle reports. */
  function StatError(fs: Fs, env: Env, p: Path): (r: Option<Errno>)
    ensures p !in fs ==> r == Some(NotExist)
  {
    if p !in fs then Some(NotExist) else env.statError(p)
  }

  /** The collision test: os.Stat of the candidate succeeds. */
  predicate Occupied(fs: Fs, env: Env, p: Path) {
    StatError(fs, env, p).None?
  }

  /** A time formatted with Go's layout "20060102-150405". */
  predicate IsTimestamp(ts: string) {
    && |ts| == 15
    && forall i :: 0 <= i < 15 ==> if i == 8 then ts[i] == '-' else '0' <= ts[i] <= '9'
  }

  /** The value time.Now().Format("20060102-150405") can produce. */
  type Timestamp = ts: string | IsTimestamp(ts) witness "20060102-150405"

  datatype SkipReason = StatFailed(errno: Errno) | IsDirectoryEntry | NoExtension | Unmapped(ext: string)

  datatype Decision = Skip(reason: SkipReason) | MoveTo(dst: Path)

  datatype Outcome =
    | Ignored
    | Skipped(reason: SkipReason)
    | Moved(src: Path, dst: Path)
    | MoveFailed(src: Path, dst: Path, err: MoveError)

  /** The outcomes processFile writes to the log; the others pass silently. */
  predicate Logs(o: Outcome) {
    (o.Skipped? && o.reason.StatFailed? && o.reason.errno != NotExist) || o.Moved? || o.MoveFailed?
  }

  /** The timestamped name: the lower-cased extension, if the name ends with it, moves after the stamp. */
  function StampedName(name: string, ext: string, ts: Timestamp): string {
    TrimSuffix(name, ext) + "-" + ts + ext
  }

  /** The collision resolver: the file's own name in `dest`, or, when that is occupied, the timestamped name. */
  function Resolve(fs: Fs, env: Env, dest: Path, name: string, ext: string, ts: Timestamp): Path {
    var candidate := Join(dest, name);
    if Occupied(fs, env, candidate) then Join(dest, StampedName(name, ext, ts)) else candidate
  }

  /**
   * processFile's decision. It skips when the stat fails, for directories, for
   * paths without an extension and for extensions no rule claims; otherwise it
   * moves the file into its rule's directory under a name that is never the
   * path itself and keeps the (lower-cased) extension.
   */
  function Decide(fs: Fs, path: Path, m: ExtensionMap, ts: Timestamp, env: Env): (d: Decision)
    ensures (d.Skip? && d.reason.StatFailed?) <==> StatError(fs, env, path).Some?
    ensures d.Skip? && d.reason.StatFailed? ==> d.reason.errno == StatError(fs, env, path).value
    ensures d == Skip(IsDirectoryEntry) <==> StatError(fs, env, path).None? && fs[path].Dir?
    ensures d == Skip(NoExtension) <==> StatError(fs, env, path).None? && fs[path].File? && Ext(path) == []
    ensures (d.Skip? && d.reason.Unmapped?) <==>
      StatError(fs, env, path).None? && fs[path].File? && Ext(path) != [] && Route(m, Ext(path)).None?
    ensures d.MoveTo? ==> IsFile(fs, path) && Ext(path) != [] && Route(m, Ext(path)).Some?
    ensures d.MoveTo? ==> d.dst != path && Ext(d.dst) != [] && Lower(Ext(d.dst)) == Lower(Ext(path))
  {
    var err := StatError(fs, env, path);
    if err.Some? then Skip(StatFailed(err.value))
    else if fs[path].Dir? then Skip(IsDirectoryEntry)
    else
      var ext := Lower(Ext(path));
      if ext == [] then Skip(NoExtension)
      else if ext !in m then Skip(Unmapped(ext))
      else
        var dest := m[ext];
        var name := Base(path);
        var dst := Resolve(fs, env, dest, name, ext, ts);
        DestinationKeepsExtension(fs, env, path, dest, ts);
        MoveTo(dst)
  }

  /** The timestamped name is longer than the name, ends in the extension, and has the stamp where TrimSuffix puts it. */
  lemma StampedNameShape(name: string, e: string, ts: Timestamp)
    requires IsExtension(e) && HasSuffix(name, e)
    ensures var ext := Lower(e);
      var s := StampedName(name, ext, ts);
      && |s| > |name|
      && s == (TrimSuffix(name, ext) + "-" + ts) + ext
      && (IsLower(e) ==> HasSuffix(name, ext) && s == name[..|name| - |ext|] + "-" + ts + ext)
      && (!IsLower(e) ==> s == name + "-" + ts + ext)
  {
    var ext := Lower(e);
    LowerFacts(e);
    if !IsLower(e) {
      assert ext != e;
      assert name[|name| - |e|..] == e;
    }
  }

  /** Both names the resolver may choose keep an extension, the stamped one the lower-cased one. */
  lemma TargetExtensions(dest: Path, name: string, e: string, ts: Timestamp)
    requires IsExtension(e) && HasSuffix(name, e)
    ensures Ext(Join(dest, name)) == e
    ensures Ext(Join(dest, StampedName(name, Lower(e), ts))) == Lower(e)
  {
    var k := |name| - |e|;
    assert name == name[..k] + e;
    JoinAppend(dest, name[..k], e);
    ExtOfSuffix(Join(dest, name[..k]), e);
    var ext := Lower(e);
    LowerExtension(e);
    var stem := TrimSuffix(name, ext) + "-" + ts;
    StampedNameShape(name, e, ts);
    JoinAppend(dest, stem, ext);
    ExtOfSuffix(Join(dest, stem), ext);
  }

  /** The resolved target keeps the file's extension, lower-cased, and never is the file itself. */
  lemma DestinationKeepsExtension(fs: Fs, env: Env, path: Path, dest: Path, ts: Timestamp)
    requires IsFile(fs, path) && StatError(fs, env, path).None? && Ext(path) != []
    ensures var dst := Resolve(fs, env, dest, Base(path), Lower(Ext(path)), ts);
      dst != path && Ext(dst) != [] && Lower(Ext(dst)) == Lower(Ext(path))
  {
    var name := Base(path);
    var e := Ext(path);
    BaseEndsWithExt(path);
    LowerFacts(e);
    TargetExtensions(dest, name, e, ts);
    var candidate := Join(dest, name);
    if Occupied(fs, env, candidate) {
      StampedNameShape(name, e, ts);
      var stamped := StampedName(name, Lower(e), ts);
      assert Resolve(fs, env, dest, name, Lower(e), ts) == Join(dest, stamped);
      StampedNameIsPlain(name, e, ts);
      BaseOfJoin(dest, stamped);
    } else {
      assert Resolve(fs, env, dest, name, Lower(e), ts) == candidate;
      assert Occupied(fs, env, path);
    }
  }

  /** A stamp has no separator, so neither has a stamped plain name. */
  lemma StampedNameIsPlain(name: string, e: string, ts: Timestamp)
    requires IsExtension(e) && HasSuffix(name, e) && NoSlash(name)
    ensures NoSlash(StampedName(name, Lower(e), ts)) && StampedName(name, Lower(e), ts) != []
  {
    var ext := Lower(e);
    LowerExtension(e);
    StampedNameShape(name, e, ts);
    assert NoSlash(TrimSuffix(name, ext));
  }

  /**
   * Collision naming. The target lies in the rule's directory. It is the file's
   * own name when nothing is there; otherwise a different path whose name carries
   * the stamp before the lower-cased extension, or, when the file's extension is
   * not already lower case (so TrimSuffix leaves the name whole), after the whole
   * name: "A.PDF" becomes "A.PDF-<stamp>.pdf".
   */
  lemma CollisionNaming(fs: Fs, path: Path, m: ExtensionMap, ts: Timestamp, env: Env)
    requires Decide(fs, path, m, ts, env).MoveTo?
    ensures var dst := Decide(fs, path, m, ts, env).dst;
      var dest := Route(m, Ext(path)).value;
      var name := Base(path);
      var ext := Lower(Ext(path));
      && dst == Join(dest, Base(dst))
      && (!Occupied(fs, env, Join(dest, name)) ==> Base(dst) == name)
      && (Occupied(fs, env, Join(dest, name)) ==>
            && dst != Join(dest, name)
            && (IsLower(Ext(path)) ==> HasSuffix(name, ext) && Base(dst) == name[..|name| - |ext|] + "-" + ts + ext)
            && (!IsLower(Ext(path)) ==> Base(dst) == name + "-" + ts + ext))
  {
    var dest := Route(m, Ext(path)).value;
    var name := Base(path);
    var e := Ext(path);
    var ext := Lower(e);
    BaseEndsWithExt(path);
    StampedNameShape(name, e, ts);
    var stamped := StampedName(name, ext, ts);
    assert Decide(fs, path, m, ts, env).dst == Resolve(fs, env, dest, name, ext, ts);
    if Occupied(fs, env, Join(dest, name)) {
      StampedNameIsPlain(name, e, ts);
      BaseOfJoin(dest, stamped);
      if Join(dest, stamped) == Join(dest, name) {
        JoinInjective(dest, stamped, name);
      }
    } else {
      BaseOfJoin(dest, name);
    }
  }

  /** The filesystem after handling one event, and what became of it. */
  datatype Processed = Processed(fs: Fs, outcome: Outcome)

  /**
   * processFile. A skip changes nothing. A move that succeeds leaves the file's
   * bytes at the target and the file gone; whatever happens, the file is never
   * gone unless the target holds its bytes, and no other path is touched.
   */
  function ProcessFile(fs: Fs, path: Path, m: ExtensionMap, ts: Timestamp, env: Env): (r: Processed)
    ensures r.outcome.Skipped? <==> Decide(fs, path, m, ts, env).Skip?
    ensures r.outcome.Skipped? ==> r.fs == fs && r.outcome.reason == Decide(fs, path, m, ts, env).reason
    ensures !r.outcome.Skipped? ==> r.outcome.Moved? || r.outcome.MoveFailed?
    ensures r.outcome.Moved? ==>
      && r.outcome.src == path && r.outcome.dst == Decide(fs, path, m, ts, env).dst
      && path !in r.fs && IsFile(r.fs, r.outcome.dst) && r.fs[r.outcome.dst].data == fs[path].data
    ensures r.outcome.MoveFailed? ==> r.outcome.src == path && r.outcome.dst == Decide(fs, path, m, ts, env).dst
    ensures path in fs && path !in r.fs ==> r.outcome.Moved?
    ensures (r.outcome.Moved? || r.outcome.MoveFailed?) ==> r.fs - {path, r.outcome.dst} == fs - {path, r.outcome.dst}
  {
    match Decide(fs, path, m, ts, env)
    case Skip(reason) => Processed(fs, Skipped(reason))
    case MoveTo(dst) =>
      var mv := MoveFile(fs, path, dst, env.faults);
      if mv.err.None? then Processed(mv.fs, Moved(path, dst))
      else Processed(mv.fs, MoveFailed(path, dst, mv.err.value))
  }

  /**
   * processFile's silence: a skip goes unlogged exactly when the entry is gone,
   * is a directory, has no extension or has one no rule claims; a stat failing
   * for another reason is logged.
   */
  lemma QuietSkips(fs: Fs, path: Path, m: ExtensionMap, ts: Timestamp, env: Env)
    ensures var o := ProcessFile(fs, path, m, ts, env).outcome;
      var err := StatError(fs, env, path);
      (o.Skipped? && !Logs(o)) <==>
        || err == Some(NotExist)
        || (err.None? && (fs[path].Dir? || Ext(path) == [] || Route(m, Ext(path)).None?))
  {
  }

  /** One event: only a Create or Write event reaches processFile; any other changes nothing. */
  function HandleEvent(fs: Fs, ev: Event, m: ExtensionMap, ts: Timestamp, env: Env): (r: Processed)
    ensures !Actionable(ev.op) ==> r == Processed(fs, Ignored)
    ensures Actionable(ev.op) ==> r == ProcessFile(fs, ev.name, m, ts, env)
    ensures r.outcome.Ignored? <==> !Actionable(ev.op)
  {
    if Actionable(ev.op) then ProcessFile(fs, ev.name, m, ts, env) else Processed(fs, Ignored)
  }

  /** An event as it is handled: with the time read for it and the oracle's answers during its processing. */
  datatype Delivery = Delivery(event: Event, ts: Timestamp, env: Env)

  datatype Run = Run(fs: Fs, outcomes: seq<Outcome>)

  /**
   * The loop of watchDirectory over the events delivered so far, handled strictly
   * one after another in arrival order with one index `m`. There is one outcome
   * per event, an event is ignored exactly when the filter drops it, and a run
   * of dropped events leaves the filesystem as it was.
   */
  function Loop(fs: Fs, m: ExtensionMap, ds: seq<Delivery>): (r: Run)
    ensures |r.outcomes| == |ds|
    ensures forall i :: 0 <= i < |ds| ==> (r.outcomes[i].Ignored? <==> !Actionable(ds[i].event.op))
    ensures (forall i :: 0 <= i < |ds| ==> !Actionable(ds[i].event.op)) ==> r.fs == fs
    decreases |ds|
  {
    if |ds| == 0 then Run(fs, [])
    else
      var n := |ds| - 1;
      var before := Loop(fs, m, ds[..n]);
      var d := ds[n];
      var step := HandleEvent(before.fs, d.event, m, d.ts, d.env);
      assert forall i :: 0 <= i < n ==> ds[..n][i] == ds[i];
      Run(step.fs, before.outcomes + [step.outcome])
  }

  /**
   * watchDirectory: the index is built once from the rules, then the loop runs;
   * every delivery gets one outcome, Ignored exactly when the filter drops it.
   */
  function Watch(fs: Fs, rules: seq<Rule>, ds: seq<Delivery>): (r: Run)
    ensures |r.outcomes| == |ds|
    ensures forall i :: 0 <= i < |ds| ==> (r.outcomes[i].Ignored? <==> !Actionable(ds[i].event.op))
  {
    Loop(fs, BuildExtensionMap(rules), ds)
  }

  /** One more event: the loop handles it on the filesystem the earlier ones left. */
  lemma LoopSnoc(fs: Fs, m: ExtensionMap, ds: seq<Delivery>, d: Delivery)
    ensures var before := Loop(fs, m, ds);
      var step := HandleEvent(before.fs, d.event, m, d.ts, d.env);
      Loop(fs, m, ds + [d]) == Run(step.fs, before.outcomes + [step.outcome])
  {
    assert (ds + [d])[..|ds|] == ds;
  }

  /** Later events never change earlier outcomes: the first k outcomes are those of the first k events alone. */
  lemma {:induction false} LoopPrefix(fs: Fs, m: ExtensionMap, ds: seq<Delivery>, k: nat)
    requires k <= |ds|
    ensures Loop(fs, m, ds).outcomes[..k] == Loop(fs, m, ds[..k]).outcomes
    decreases |ds|
  {
    if k == |ds| {
      assert ds[..k] == ds;
    } else {
      var n := |ds| - 1;
      assert ds == ds[..n] + [ds[n]];
      assert ds[..n][..k] == ds[..k];
      LoopPrefix(fs, m, ds[..n], k);
      LoopSnoc(fs, m, ds[..n], ds[n]);
      var before := Loop(fs, m, ds[..n]);
      assert Loop(fs, m, ds).outcomes[..k] == before.outcomes[..k];
    }
  }

  /**
   * Strict arrival order: the outcome of the i-th event is what handling it gives
   * on the filesystem the first i events left behind.
   */
  lemma LoopInOrder(fs: Fs, m: ExtensionMap, ds: seq<Delivery>)
    ensures forall i :: 0 <= i < |ds| ==>
      Loop(fs, m, ds).outcomes[i] == HandleEvent(Loop(fs, m, ds[..i]).fs, ds[i].event, m, ds[i].ts, ds[i].env).outcome
  {
    forall i | 0 <= i < |ds|
      ensures Loop(fs, m, ds).outcomes[i] == HandleEvent(Loop(fs, m, ds[..i]).fs, ds[i].event, m, ds[i].ts, ds[i].env).outcome
    {
      OutcomeAt(fs, m, ds, i);
    }
  }

  /** The i-th outcome of a loop, from the prefix ending with the i-th event. */
  lemma OutcomeAt(fs: Fs, m: ExtensionMap, ds: seq<Delivery>, i: nat)
    requires i < |ds|
    ensures Loop(fs, m, ds).outcomes[i] == HandleEvent(Loop(fs, m, ds[..i]).fs, ds[i].event, m, ds[i].ts, ds[i].env).outcome
  {
    LoopPrefix(fs, m, ds, i + 1);
    assert ds[..i + 1] == ds[..i] + [ds[i]];
    LoopSnoc(fs, m, ds[..i], ds[i]);
    assert Loop(fs, m, ds).outcomes[i] == Loop(fs, m, ds).outcomes[..i + 1][i];
  }

  /**
   * Events the filter drops, arriving after any others, leave the filesystem as
   * those others left it, each adds an Ignored outcome, and the earlier outcomes
   * stay as they were.
   */
  lemma {:induction false} DroppedEventsChangeNothing(fs: Fs, m: ExtensionMap, ds: seq<Delivery>, dropped: seq<Delivery>)
    requires forall i :: 0 <= i < |dropped| ==> !Actionable(dropped[i].event.op)
    ensures Loop(fs, m, ds + dropped).fs == Loop(fs, m, ds).fs
    ensures Loop(fs, m, ds + dropped).outcomes[..|ds|] == Loop(fs, m, ds).outcomes
    ensures forall i :: |ds| <= i < |ds| + |dropped| ==> Loop(fs, m, ds + dropped).outcomes[i] == Ignored
    decreases |dropped|
  {
    if |dropped| == 0 {
      assert ds + dropped == ds;
    } else {
      var k := |dropped| - 1;
      var front := ds + dropped[..k];
      assert ds + dropped == front + [dropped[k]];
      DroppedEventsChangeNothing(fs, m, ds, dropped[..k]);
      DroppedStep(fs, m, front, dropped[k]);
      var before := Loop(fs, m, front);
      assert Loop(fs, m, ds + dropped).outcomes[..|ds|] == before.outcomes[..|ds|];
    }
  }

  /** One dropped event: the filesystem stays and an Ignored outcome is appended. */
  lemma DroppedStep(fs: Fs, m: ExtensionMap, ds: seq<Delivery>, d: Delivery)
    requires !Actionable(d.event.op)
    ensures Loop(fs, m, ds + [d]) == Run(Loop(fs, m, ds).fs, Loop(fs, m, ds).outcomes + [Ignored])
  {
    LoopSnoc(fs, m, ds, d);
  }

  /** No fault anywhere, and every path on one device: the conditions of an uneventful move. */
  ghost predicate Calm(env: Env) {
    && (forall p :: env.statError(p).None?)
    && (forall p, q :: env.faults.device(p) == env.faults.device(q))
    && env.faults.lookup.None?
    && env.faults.rename.None?
  }

  /**
   * When stat of the own name answers truthfully, the resolver picks a directory
   * only if the stamped name is one: a free own name holds nothing.
   */
  lemma ResolvedNotDirectory(fs: Fs, env: Env, dest: Path, name: string, ext: string, ts: Timestamp)
    requires env.statError(Join(dest, name)).None?
    requires !IsDir(fs, Join(dest, StampedName(name, ext, ts)))
    ensures !IsDir(fs, Resolve(fs, env, dest, name, ext, ts))
  {
  }

  /** On a calm filesystem a decided move onto anything but a directory is a plain rename that succeeds. */
  lemma CalmMove(fs: Fs, path: Path, m: ExtensionMap, ts: Timestamp, env: Env, dst: Path)
    requires Calm(env) && !IsDir(fs, dst)
    ensures Decide(fs, path, m, ts, env) == MoveTo(dst) ==>
      var r := ProcessFile(fs, path, m, ts, env);
      r.outcome == Moved(path, dst) && dst in r.fs && r.fs[dst] == fs[path]
  {
    if Decide(fs, path, m, ts, env) == MoveTo(dst) {
      assert !CrossesDevice(env.faults, path, dst);
      assert Rename(fs, path, dst, env.faults).err.None?;
    }
  }

  /**
   * A file whose extension some rule claims is moved, on a calm filesystem with
   * no directory at the stamped name, into the directory of the last rule
   * claiming it: its entry (bytes and mode) leaves
   * the path and appears at the target, the file's own name there unless that is
   * taken, and every other entry, an occupant of that name included, stays as it was.
   */
  lemma RoutedToLastRule(fs: Fs, rules: seq<Rule>, path: Path, ts: Timestamp, env: Env, i: int)
    requires IsFile(fs, path) && Calm(env)
    requires Ext(path) != [] && LastClaim(rules, i, Lower(Ext(path)))
    requires !IsDir(fs, Join(rules[i].destination, StampedName(Base(path), Lower(Ext(path)), ts)))
    ensures RoutedMove(fs, rules, path, ts, env, i)
  {
    var d := Decide(fs, path, BuildExtensionMap(rules), ts, env);
    assert d.MoveTo? ==> !IsDir(fs, d.dst) by {
      if d.MoveTo? {
        var dest := rules[i].destination;
        RouteFollowsLastRule(rules, Ext(path));
        assert d.dst == Resolve(fs, env, dest, Base(path), Lower(Ext(path)), ts);
        assert env.statError(Join(dest, Base(path))).None?;
        ResolvedNotDirectory(fs, env, dest, Base(path), Lower(Ext(path)), ts);
      }
    }
    assert d.MoveTo? by {
      RouteFollowsLastRule(rules, Ext(path));
    }
    MoveWhenTargetFree(fs, rules, path, ts, env, i, d.dst);
  }

  /**
   * What RoutedToLastRule promises about processFile: the file moves with its
   * entry into the rule's directory, under its own name there when nothing is
   * there, and every other entry, an occupant of the own name included, stays.
   */
  ghost predicate RoutedMove(fs: Fs, rules: seq<Rule>, path: Path, ts: Timestamp, env: Env, i: int)
    requires IsFile(fs, path) && 0 <= i < |rules|
  {
    var r := ProcessFile(fs, path, BuildExtensionMap(rules), ts, env);
    var dest := rules[i].destination;
    && r.outcome.Moved?
    && r.outcome.dst == Join(dest, Base(r.outcome.dst))
    && (Join(dest, Base(path)) !in fs ==> r.outcome.dst == Join(dest, Base(path)))
    && path !in r.fs && r.outcome.dst in r.fs && r.fs[r.outcome.dst] == fs[path]
    && r.fs - {path, r.outcome.dst} == fs - {path, r.outcome.dst}
    && (Join(dest, Base(path)) in fs && Join(dest, Base(path)) != path ==>
          Join(dest, Base(path)) in r.fs && r.fs[Join(dest, Base(path))] == fs[Join(dest, Base(path))])
  }

  /** The move half of RoutedToLastRule, once the decided target is known not to be a directory. */
  lemma MoveWhenTargetFree(fs: Fs, rules: seq<Rule>, path: Path, ts: Timestamp, env: Env, i: int, dst: Path)
    requires IsFile(fs, path) && Calm(env)
    requires Ext(path) != [] && LastClaim(rules, i, Lower(Ext(path)))
    requires !IsDir(fs, dst)
    ensures Decide(fs, path, BuildExtensionMap(rules), ts, env) == MoveTo(dst) ==> RoutedMove(fs, rules, path, ts, env, i)
  {
    var m := BuildExtensionMap(rules);
    RouteFollowsLastRule(rules, Ext(path));
    assert Route(m, Ext(path)) == Some(rules[i].destination);
    assert StatError(fs, env, path).None?;
    var d := Decide(fs, path, m, ts, env);
    if d != MoveTo(dst) {
      return;
    }
    CollisionNaming(fs, path, m, ts, env);
    CalmMove(fs, path, m, ts, env, dst);
    var r := ProcessFile(fs, path, m, ts, env);
    var own := Join(rules[i].destination, Base(path));
    if own in fs && own != path {
      assert Occupied(fs, env, own);
      assert d.dst != own;
      Untouched(fs, r.fs, path, d.dst, own);
    }
  }

  /**
   * The name-clash quirk on a sample: "A.PDF" has extension ".PDF", routed as
   * ".pdf"; TrimSuffix finds no ".pdf" at its end, so the stamp follows the
   * whole name.
   */
  lemma MixedCaseNameNotTrimmed(ts: Timestamp)
    ensures Ext("A.PDF") == ".PDF" && Lower(".PDF") == ".pdf"
    ensures StampedName("A.PDF", Lower(Ext("A.PDF")), ts) == "A.PDF-" + ts + ".pdf"
  {
    assert "A.PDF" == "A" + ".PDF";
    ExtOfSuffix("A", ".PDF");
    assert Lower(".PDF") == ".pdf";
    assert !HasSuffix("A.PDF", ".pdf") by {
      assert "A.PDF"[5 - 4..][1] == 'P';
    }
  }
}
