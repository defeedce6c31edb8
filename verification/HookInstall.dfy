/**
 * The managed hook installer as a state machine over four files: two live
 * hooks and their preserved originals (src/hooks.rs). An install may stop
 * after any primitive step, because the process died or the step failed.
 */
module HookInstall {
  import opened Text
  import opened Wrapper

  /** What a path holds. A symlink carries what reading through it yields, if anything. */
  datatype Node =
    | Absent
    | Symlink(target: Option<string>)
    | NotRegular
    | Regular(bytes: string, executable: bool)

  /** One hook: the live file and its preserved original. */
  datatype Files = Files(live: Node, backup: Node)

  datatype Checkout = Checkout(prepare: Files, commit: Files)

  datatype InstallError = UnsafeOriginal | SymlinkHook | NotRegularHook | BackupTaken | StepFailed

  datatype Outcome = Outcome(installed: seq<HookKind>, updated: seq<HookKind>, moved: seq<HookKind>)

  /** The two steps that change files: rename the hook aside, atomically replace the hook. */
  datatype Action = MoveAside | WriteWrapper(script: string)

  /** What installing one hook is going to do; `update` when the live hook was already managed. */
  datatype Plan =
    | Keep
    | Write(script: string, update: bool)
    | Displace(script: string)

  function StepCount(plan: Plan): nat {
    match plan
    case Keep => 0
    case Write(_, _) => 1
    case Displace(_) => 2
  }

  function Of(s: Checkout, hook: HookKind): Files {
    match hook
    case PrepareCommitMsg => s.prepare
    case CommitMsg => s.commit
  }

  function BackupPath(dir: string, hook: HookKind): string {
    dir + "/phasegent-original/" + Name(hook)
  }

  /**
   * The wrapper texts the installer compares a live hook with: chained to the
   * backup, the same without the preflight test, and unchained.
   */
  datatype Scripts = Scripts(chained: string, legacy: string, plain: string) {
    predicate Declares(current: string) {
      current == chained || current == legacy
    }

    predicate Manages(current: string) {
      Declares(current) || current == plain
    }

    function Desired(chain: bool): string {
      if chain then chained else plain
    }

    ghost predicate Distinct() {
      plain != chained && plain != legacy
    }
  }

  function ScriptsOf(dir: string, hook: HookKind): Scripts {
    var backup := Some(BackupPath(dir, hook));
    Scripts(Script(hook, backup), LegacyScript(hook, backup), Script(hook, None))
  }

  /** The texts for the two hooks of one directory. */
  datatype Wrappers = Wrappers(prepare: Scripts, commit: Scripts) {
    function For(hook: HookKind): Scripts {
      match hook
      case PrepareCommitMsg => prepare
      case CommitMsg => commit
    }

    ghost predicate Distinct() {
      prepare.Distinct() && commit.Distinct()
    }
  }

  function WrappersOf(dir: string): Wrappers {
    Wrappers(ScriptsOf(dir, PrepareCommitMsg), ScriptsOf(dir, CommitMsg))
  }

  /** `std::fs::read`, which follows symlinks. */
  function Read(node: Node): Option<string> {
    match node
    case Regular(bytes, _) => Some(bytes)
    case Symlink(target) => target
    case _ => None
  }

  /** `validate_original`. */
  predicate IsSafe(node: Node) {
    node.Regular? && node.executable
  }

  /** A declared chain whose original is missing or unsafe; found before anything is written. */
  predicate PreflightRefuses(w: Scripts, f: Files) {
    match Read(f.live)
    case None => false
    case Some(current) =>
      && (w.Declares(current) || (current == w.plain && f.backup != Absent))
      && !IsSafe(f.backup)
  }

  function PlanHook(w: Scripts, f: Files): Result<Plan, InstallError> {
    match f.live
    case Absent =>
      if f.backup != Absent && !IsSafe(f.backup) then Err(UnsafeOriginal)
      else Ok(Write(w.Desired(f.backup != Absent), false))
    case Symlink(_) => Err(SymlinkHook)
    case NotRegular => Err(NotRegularHook)
    case Regular(current, executable) =>
      if w.Manages(current) then
        var chain := w.Declares(current) || f.backup != Absent;
        if chain && !IsSafe(f.backup) then Err(UnsafeOriginal)
        else if current != w.Desired(chain) then Ok(Write(w.Desired(chain), true))
        else Ok(Keep)
      else if !executable then Err(UnsafeOriginal)
      else if f.backup != Absent then Err(BackupTaken)
      else Ok(Displace(w.Desired(true)))
  }

  function Apply(f: Files, action: Action): Files {
    match action
    case MoveAside => Files(Absent, f.live)
    case WriteWrapper(script) => f.(live := Regular(script, true))
  }

  /** The files once the first `steps` steps of a plan are done. */
  function Reached(f: Files, plan: Plan, steps: nat): Files {
    if steps == 0 then f
    else
      match plan
      case Keep => f
      case Write(script, _) => Apply(f, WriteWrapper(script))
      case Displace(script) =>
        var moved := Apply(f, MoveAside);
        if steps == 1 then moved else Apply(moved, WriteWrapper(script))
  }

  /** The files of one hook after an install that gets through at most `steps` steps. */
  datatype HookRun = HookRun(files: Files, left: nat, result: Result<Plan, InstallError>)

  function RunHook(w: Scripts, f: Files, steps: nat): HookRun {
    match PlanHook(w, f)
    case Err(e) => HookRun(f, steps, Err(e))
    case Ok(plan) =>
      var n := StepCount(plan);
      if steps < n then HookRun(Reached(f, plan, steps), 0, Err(StepFailed))
      else HookRun(Reached(f, plan, n), steps - n, Ok(plan))
  }

  function Report(outcome: Outcome, hook: HookKind, plan: Plan): Outcome {
    match plan
    case Displace(_) => outcome.(installed := outcome.installed + [hook], moved := outcome.moved + [hook])
    case Write(_, false) => outcome.(installed := outcome.installed + [hook])
    case _ => outcome.(updated := outcome.updated + [hook])
  }

  datatype InstallRun = InstallRun(state: Checkout, result: Result<Outcome, InstallError>)

  const NOTHING: Outcome := Outcome([], [], [])

  /** `install_in`: both preflight checks, then both hooks, with at most `steps` steps let through. */
  function Install(ws: Wrappers, s: Checkout, steps: nat): InstallRun {
    if PreflightRefuses(ws.prepare, s.prepare) || PreflightRefuses(ws.commit, s.commit) then
      InstallRun(s, Err(UnsafeOriginal))
    else
      var first := RunHook(ws.prepare, s.prepare, steps);
      var s1 := s.(prepare := first.files);
      match first.result
      case Err(e) => InstallRun(s1, Err(e))
      case Ok(plan1) =>
        var second := RunHook(ws.commit, s.commit, first.left);
        var s2 := s1.(commit := second.files);
        match second.result
        case Err(e) => InstallRun(s2, Err(e))
        case Ok(plan2) =>
          InstallRun(s2, Ok(Report(Report(NOTHING, PrepareCommitMsg, plan1), CommitMsg, plan2)))
  }

  /** No install takes more than four steps. */
  function Complete(ws: Wrappers, s: Checkout): InstallRun {
    Install(ws, s, 4)
  }

  // --- The installer working on the files in place. ---

  /** What every way of installing one hook promises: it runs that hook's plan and nothing else. */
  ghost predicate Ran(
    w: Scripts, hook: HookKind, outcome: Outcome,
    before: map<HookKind, Files>, steps: nat, after: map<HookKind, Files>, left: nat,
    result: Result<Outcome, InstallError>)
  {
    && hook in before
    && var run := RunHook(w, before[hook], steps);
    && after == before[hook := run.files]
    && left == run.left
    && result == match run.result
                 case Err(e) => Err(e)
                 case Ok(plan) => Ok(Report(outcome, hook, plan))
  }

  class HooksDirectory {
    const wrappers: Wrappers
    var files: map<HookKind, Files>
    /** Steps that still get through before the environment stops the install. */
    var steps: nat

    ghost predicate Valid()
      reads this
    {
      forall hook: HookKind :: hook in files
    }

    ghost function State(): Checkout
      requires Valid()
      reads this
    {
      Checkout(files[PrepareCommitMsg], files[CommitMsg])
    }

    constructor (dir: string, s: Checkout, steps: nat)
      ensures Valid() && wrappers == WrappersOf(dir) && State() == s && this.steps == steps
    {
      this.wrappers := WrappersOf(dir);
      this.files := map[PrepareCommitMsg := s.prepare, CommitMsg := s.commit];
      this.steps := steps;
      new;
      forall hook: HookKind ensures hook in files {
        match hook {
          case PrepareCommitMsg =>
          case CommitMsg =>
        }
      }
    }

    /** One rename, of the hook to its backup or of a finished temp file over the hook. */
    method Step(hook: HookKind, action: Action) returns (done: bool)
      requires Valid()
      modifies this
      ensures Valid() && done == (old(steps) > 0)
      ensures done ==> steps == old(steps) - 1 && files == old(files)[hook := Apply(old(files)[hook], action)]
      ensures !done ==> steps == 0 && files == old(files)
    {
      done := steps > 0;
      if done {
        steps := steps - 1;
        files := files[hook := Apply(files[hook], action)];
      }
    }

    method InstallFresh(hook: HookKind, outcome: Outcome) returns (result: Result<Outcome, InstallError>)
      requires Valid() && files[hook].live == Absent
      modifies this
      ensures Valid() && Ran(wrappers.For(hook), hook, outcome, old(files), old(steps), files, steps, result)
    {
      var w, backup := wrappers.For(hook), files[hook].backup;
      if backup != Absent && !IsSafe(backup) {
        return Err(UnsafeOriginal);
      }
      var written := Step(hook, WriteWrapper(w.Desired(backup != Absent)));
      if !written {
        return Err(StepFailed);
      }
      return Ok(outcome.(installed := outcome.installed + [hook]));
    }

    method UpdateManaged(hook: HookKind, current: string, outcome: Outcome)
      returns (result: Result<Outcome, InstallError>)
      requires Valid() && files[hook].live.Regular? && files[hook].live.bytes == current
      requires wrappers.For(hook).Manages(current)
      modifies this
      ensures Valid() && Ran(wrappers.For(hook), hook, outcome, old(files), old(steps), files, steps, result)
    {
      var w, backup := wrappers.For(hook), files[hook].backup;
      var chain := w.Declares(current) || backup != Absent;
      if chain && !IsSafe(backup) {
        return Err(UnsafeOriginal);
      }
      if current != w.Desired(chain) {
        var written := Step(hook, WriteWrapper(w.Desired(chain)));
        if !written {
          return Err(StepFailed);
        }
      }
      return Ok(outcome.(updated := outcome.updated + [hook]));
    }

    method DisplaceForeign(hook: HookKind, outcome: Outcome) returns (result: Result<Outcome, InstallError>)
      requires Valid() && files[hook].live.Regular? && !wrappers.For(hook).Manages(files[hook].live.bytes)
      modifies this
      ensures Valid() && Ran(wrappers.For(hook), hook, outcome, old(files), old(steps), files, steps, result)
    {
      if !files[hook].live.executable {
        return Err(UnsafeOriginal);
      }
      if files[hook].backup != Absent {
        return Err(BackupTaken);
      }
      var moved := Step(hook, MoveAside);
      if !moved {
        return Err(StepFailed);
      }
      var written := Step(hook, WriteWrapper(wrappers.For(hook).Desired(true)));
      if !written {
        return Err(StepFailed);
      }
      return Ok(outcome.(installed := outcome.installed + [hook], moved := outcome.moved + [hook]));
    }

    method InstallHook(hook: HookKind, outcome: Outcome) returns (result: Result<Outcome, InstallError>)
      requires Valid()
      modifies this
      ensures Valid() && Ran(wrappers.For(hook), hook, outcome, old(files), old(steps), files, steps, result)
    {
      match files[hook].live {
        case Absent => result := InstallFresh(hook, outcome);
        case Symlink(_) => result := Err(SymlinkHook);
        case NotRegular => result := Err(NotRegularHook);
        case Regular(current, _) =>
          if wrappers.For(hook).Manages(current) {
            result := UpdateManaged(hook, current, outcome);
          } else {
            result := DisplaceForeign(hook, outcome);
          }
      }
    }

    method InstallAll() returns (result: Result<Outcome, InstallError>)
      requires Valid()
      modifies this
      ensures Valid() && InstallRun(State(), result) == Install(wrappers, old(State()), old(steps))
    {
      var hooks := [PrepareCommitMsg, CommitMsg];
      for i := 0 to |hooks|
        invariant files == old(files) && steps == old(steps)
        invariant forall j :: 0 <= j < i ==> !PreflightRefuses(wrappers.For(hooks[j]), files[hooks[j]])
      {
        if PreflightRefuses(wrappers.For(hooks[i]), files[hooks[i]]) {
          return Err(UnsafeOriginal);
        }
      }
      assert hooks[0] == PrepareCommitMsg && hooks[1] == CommitMsg;
      result := InstallHook(PrepareCommitMsg, NOTHING);
      if result.Ok? {
        result := InstallHook(CommitMsg, result.value);
      }
    }
  }

  // --- One hook: a stopped install can be resumed. ---

  function Settled(w: Scripts, f: Files): Files {
    RunHook(w, f, 2).files
  }

  /** The texts of one directory are told apart, and mean what `src/hooks.rs` compares with. */
  lemma WrappersAreDistinct(dir: string, hook: HookKind)
    ensures WrappersOf(dir).Distinct()
    ensures forall current :: ScriptsOf(dir, hook).Declares(current)
                         <==> DeclaresOriginal(current, hook, BackupPath(dir, hook))
    ensures forall current :: ScriptsOf(dir, hook).Manages(current)
                         <==> IsManaged(current, hook, BackupPath(dir, hook))
  {
    forall h: HookKind ensures ScriptsOf(dir, h).Distinct() {
      var path := BackupPath(dir, h);
      RenderInjective(h, Some(path), true, h, None, true);
      RenderInjective(h, Some(path), false, h, None, true);
    }
    assert ScriptsOf(dir, PrepareCommitMsg).Distinct() && ScriptsOf(dir, CommitMsg).Distinct();
  }

  lemma HookResumes(w: Scripts, f: Files, steps: nat)
    requires w.Distinct() && PlanHook(w, f).Ok?
    ensures var g := RunHook(w, f, steps).files;
            && PlanHook(w, g).Ok?
            && Settled(w, g) == Settled(w, f)
            && !PreflightRefuses(w, g)
    ensures PlanHook(w, Settled(w, f)) == Ok(Keep)
  {}

  /** A planned hook that is not left alone changes its files. */
  lemma PlanChanges(w: Scripts, f: Files)
    requires w.Distinct() && PlanHook(w, f).Ok?
    ensures Settled(w, f) == f <==> PlanHook(w, f) == Ok(Keep)
  {}

  // --- Whole installs. ---

  lemma CompletesExactly(ws: Wrappers, s: Checkout)
    requires ws.Distinct()
    ensures Complete(ws, s).result.Ok?
       <==> PlanHook(ws.prepare, s.prepare).Ok? && PlanHook(ws.commit, s.commit).Ok?
    ensures Complete(ws, s).result.Ok? ==>
              Complete(ws, s).state == Checkout(Settled(ws.prepare, s.prepare), Settled(ws.commit, s.commit))
  {
    if PlanHook(ws.prepare, s.prepare).Ok? && PlanHook(ws.commit, s.commit).Ok? {
      HookResumes(ws.prepare, s.prepare, 0);
      HookResumes(ws.commit, s.commit, 0);
    }
  }

  /** Installs one after the other; the i-th gets through at most `runs[i]` steps. */
  function Installs(ws: Wrappers, s: Checkout, runs: seq<nat>): Checkout
    decreases |runs|
  {
    if runs == [] then s else Installs(ws, Install(ws, s, runs[0]).state, runs[1..])
  }

  lemma StoppedInstallResumes(ws: Wrappers, s: Checkout, steps: nat)
    requires ws.Distinct() && Complete(ws, s).result.Ok?
    ensures var t := Install(ws, s, steps).state;
            Complete(ws, t).result.Ok? && Complete(ws, t).state == Complete(ws, s).state
  {
    CompletesExactly(ws, s);
    CompletesExactly(ws, Install(ws, s, steps).state);
    HookResumes(ws.prepare, s.prepare, steps);
    HookResumes(ws.commit, s.commit, RunHook(ws.prepare, s.prepare, steps).left);
    HookResumes(ws.commit, s.commit, 0);
  }

  lemma {:induction false} StoppedInstallsResume(ws: Wrappers, s: Checkout, runs: seq<nat>)
    requires ws.Distinct() && Complete(ws, s).result.Ok?
    ensures var t := Installs(ws, s, runs);
            Complete(ws, t).result.Ok? && Complete(ws, t).state == Complete(ws, s).state
    decreases |runs|
  {
    if runs != [] {
      StoppedInstallResumes(ws, s, runs[0]);
      StoppedInstallsResume(ws, Install(ws, s, runs[0]).state, runs[1..]);
    }
  }

  /** However often an install is stopped, a later complete one ends in the same four files. */
  lemma CrashRecovery(dir: string, s: Checkout, runs: seq<nat>)
    requires Complete(WrappersOf(dir), s).result.Ok?
    ensures var ws, t := WrappersOf(dir), Installs(WrappersOf(dir), s, runs);
            Complete(ws, t).result.Ok? && Complete(ws, t).state == Complete(ws, s).state
  {
    WrappersAreDistinct(dir, CommitMsg);
    StoppedInstallsResume(WrappersOf(dir), s, runs);
  }

  // --- What an install does, told by what is on disk. ---

  ghost predicate IsExecutable(node: Node) {
    node.Regular? && node.executable
  }

  /** The live hook is a wrapper for this hook and this directory. */
  ghost predicate IsOurs(dir: string, hook: HookKind, f: Files) {
    f.live.Regular? && IsManaged(f.live.bytes, hook, BackupPath(dir, hook))
  }

  /** It is a wrapper that runs an original. */
  ghost predicate IsChained(dir: string, hook: HookKind, f: Files) {
    f.live.Regular? && DeclaresOriginal(f.live.bytes, hook, BackupPath(dir, hook))
  }

  ghost predicate IsForeign(f: Files, ours: bool) {
    f.live.Regular? && !ours
  }

  ghost predicate IsNew(f: Files, ours: bool) {
    f.live == Absent || IsForeign(f, ours)
  }

  /** The hook can be installed: what has to run before it is safe, and nothing is overwritten. */
  ghost predicate CanInstall(f: Files, ours: bool, chained: bool) {
    match f.live
    case Absent => f.backup == Absent || IsExecutable(f.backup)
    case Regular(_, executable) =>
      if ours then IsExecutable(f.backup) || (f.backup == Absent && !chained)
      else executable && f.backup == Absent
    case _ => false
  }

  /** Why it cannot. */
  ghost function Refusal(f: Files, ours: bool): InstallError {
    match f.live
    case Symlink(_) => SymlinkHook
    case NotRegular => NotRegularHook
    case Absent => UnsafeOriginal
    case Regular(_, executable) => if !ours && executable then BackupTaken else UnsafeOriginal
  }

  lemma DistinctTexts(dir: string)
    ensures WrappersOf(dir).Distinct()
  {
    WrappersAreDistinct(dir, CommitMsg);
  }

  lemma TextOnDisk(dir: string, hook: HookKind, current: string)
    ensures var w := WrappersOf(dir).For(hook);
            && (w.Manages(current) <==> IsManaged(current, hook, BackupPath(dir, hook)))
            && (w.Declares(current) <==> DeclaresOriginal(current, hook, BackupPath(dir, hook)))
            && (current == w.plain <==> current == Script(hook, None))
  {
    WrappersAreDistinct(dir, hook);
    assert WrappersOf(dir).For(hook) == ScriptsOf(dir, hook);
  }

  lemma OnDisk(dir: string, hook: HookKind, f: Files)
    ensures var w := WrappersOf(dir).For(hook);
            && (IsOurs(dir, hook, f) <==> f.live.Regular? && w.Manages(f.live.bytes))
            && (IsChained(dir, hook, f) <==> f.live.Regular? && w.Declares(f.live.bytes))
  {
    if f.live.Regular? {
      TextOnDisk(dir, hook, f.live.bytes);
    }
  }

  lemma PlansExactly(w: Scripts, f: Files, ours: bool, chained: bool)
    requires ours <==> f.live.Regular? && w.Manages(f.live.bytes)
    requires chained <==> f.live.Regular? && w.Declares(f.live.bytes)
    ensures PlanHook(w, f).Ok? <==> CanInstall(f, ours, chained)
    ensures PlanHook(w, f).Err? ==> PlanHook(w, f) == Err(Refusal(f, ours))
  {}

  lemma FailsExactly(ws: Wrappers, s: Checkout)
    requires ws.Distinct()
    ensures var result := Complete(ws, s).result;
            var first, second := PlanHook(ws.prepare, s.prepare), PlanHook(ws.commit, s.commit);
            && (result.Ok? <==> first.Ok? && second.Ok?)
            && (result.Err? ==>
                  result == Err(
                    if PreflightRefuses(ws.prepare, s.prepare) || PreflightRefuses(ws.commit, s.commit)
                    then UnsafeOriginal
                    else if first.Err? then first.error
                    else second.error))
  {
    CompletesExactly(ws, s);
  }

  /** A node holds this text, or is a symlink through which it is read. */
  ghost predicate Holds(node: Node, text: string) {
    (node.Regular? && node.bytes == text) || node == Symlink(Some(text))
  }

  /**
   * What is on disk when a live hook declares a chain it cannot run: its text,
   * read through a symlink, is a wrapper for this hook and this directory's
   * backup, or the unchained wrapper beside a backup, and that backup is not a
   * regular executable file.
   */
  ghost predicate BrokenChain(dir: string, s: Checkout, hook: HookKind) {
    var f, path := Of(s, hook), BackupPath(dir, hook);
    && !(f.backup.Regular? && f.backup.executable)
    && exists current ::
         && Holds(f.live, current)
         && (DeclaresOriginal(current, hook, path) || (current == Script(hook, None) && f.backup != Absent))
  }

  lemma BrokenExactly(dir: string, s: Checkout, hook: HookKind, current: string)
    requires Holds(Of(s, hook).live, current)
    ensures BrokenChain(dir, s, hook) <==>
            && !IsSafe(Of(s, hook).backup)
            && (DeclaresOriginal(current, hook, BackupPath(dir, hook))
                || (current == Script(hook, None) && Of(s, hook).backup != Absent))
  {}

  lemma BrokenText(dir: string, s: Checkout, hook: HookKind, current: string)
    requires Holds(Of(s, hook).live, current)
    ensures BrokenChain(dir, s, hook) <==> PreflightRefuses(WrappersOf(dir).For(hook), Of(s, hook))
  {
    TextOnDisk(dir, hook, current);
    BrokenExactly(dir, s, hook, current);
  }

  lemma BrokenOnDisk(dir: string, s: Checkout, hook: HookKind)
    ensures BrokenChain(dir, s, hook) <==> PreflightRefuses(WrappersOf(dir).For(hook), Of(s, hook))
  {
    match Of(s, hook).live
    case Regular(current, _) => BrokenText(dir, s, hook, current);
    case Symlink(Some(current)) => BrokenText(dir, s, hook, current);
    case _ =>
  }

  /**
   * An install succeeds exactly if both hooks can be installed. Otherwise a
   * chain that cannot run is what it reports first, then the first such hook.
   */
  lemma SucceedsOnDisk(dir: string, s: Checkout)
    ensures var result, prepare, commit := Complete(WrappersOf(dir), s).result, PrepareCommitMsg, CommitMsg;
            var first := CanInstall(s.prepare, IsOurs(dir, prepare, s.prepare), IsChained(dir, prepare, s.prepare));
            var second := CanInstall(s.commit, IsOurs(dir, commit, s.commit), IsChained(dir, commit, s.commit));
            && (result.Ok? <==> first && second)
            && (result.Err? ==>
                  result == Err(
                    if BrokenChain(dir, s, prepare) || BrokenChain(dir, s, commit) then UnsafeOriginal
                    else if !first then Refusal(s.prepare, IsOurs(dir, prepare, s.prepare))
                    else Refusal(s.commit, IsOurs(dir, commit, s.commit))))
  {
    var ws, prepare, commit := WrappersOf(dir), PrepareCommitMsg, CommitMsg;
    DistinctTexts(dir);
    OnDisk(dir, prepare, s.prepare);
    OnDisk(dir, commit, s.commit);
    PlansExactly(ws.prepare, s.prepare, IsOurs(dir, prepare, s.prepare), IsChained(dir, prepare, s.prepare));
    PlansExactly(ws.commit, s.commit, IsOurs(dir, commit, s.commit), IsChained(dir, commit, s.commit));
    BrokenOnDisk(dir, s, prepare);
    BrokenOnDisk(dir, s, commit);
    FailsExactly(ws, s);
  }

  /** Those of the two hooks that are picked, in the order they are installed. */
  function Picked(prepare: bool, commit: bool): seq<HookKind> {
    (if prepare then [PrepareCommitMsg] else []) + (if commit then [CommitMsg] else [])
  }

  lemma SettledExactly(w: Scripts, f: Files, ours: bool)
    requires PlanHook(w, f).Ok? && (ours <==> f.live.Regular? && w.Manages(f.live.bytes))
    ensures var g := Settled(w, f);
            && g.backup == (if IsForeign(f, ours) then f.live else f.backup)
            && g.live.Regular? && g.live.bytes == if g.backup == Absent then w.plain else w.chained
  {}

  lemma ReportExactly(w: Scripts, hook: HookKind, f: Files, ours: bool, outcome: Outcome)
    requires PlanHook(w, f).Ok? && (ours <==> f.live.Regular? && w.Manages(f.live.bytes))
    ensures Report(outcome, hook, PlanHook(w, f).value) == Outcome(
              outcome.installed + (if IsNew(f, ours) then [hook] else []),
              outcome.updated + (if ours then [hook] else []),
              outcome.moved + (if IsForeign(f, ours) then [hook] else []))
  {
    assert outcome.installed + [] == outcome.installed && outcome.updated + [] == outcome.updated;
    assert outcome.moved + [] == outcome.moved;
  }

  lemma SuccessReports(ws: Wrappers, s: Checkout, p: bool, c: bool)
    requires ws.Distinct() && Complete(ws, s).result.Ok?
    requires p <==> s.prepare.live.Regular? && ws.prepare.Manages(s.prepare.live.bytes)
    requires c <==> s.commit.live.Regular? && ws.commit.Manages(s.commit.live.bytes)
    ensures Complete(ws, s).result.value == Outcome(
              Picked(IsNew(s.prepare, p), IsNew(s.commit, c)), Picked(p, c),
              Picked(IsForeign(s.prepare, p), IsForeign(s.commit, c)))
  {
    CompletesExactly(ws, s);
    ReportExactly(ws.prepare, PrepareCommitMsg, s.prepare, p, NOTHING);
    var first := Report(NOTHING, PrepareCommitMsg, PlanHook(ws.prepare, s.prepare).value);
    ReportExactly(ws.commit, CommitMsg, s.commit, c, first);
  }

  /** What a hook is after a success: the wrapper with the test, chained to the original if there is one now. */
  ghost predicate IsInstalled(dir: string, hook: HookKind, f: Files, g: Files) {
    && g.backup == (if IsForeign(f, IsOurs(dir, hook, f)) then f.live else f.backup)
    && g.live.Regular?
    && g.live.bytes == RenderWrapper(hook, if g.backup == Absent then None else Some(BackupPath(dir, hook)), true)
  }

  lemma SettledOnDisk(dir: string, hook: HookKind, f: Files)
    requires PlanHook(WrappersOf(dir).For(hook), f).Ok?
    ensures IsInstalled(dir, hook, f, Settled(WrappersOf(dir).For(hook), f))
  {
    OnDisk(dir, hook, f);
    assert WrappersOf(dir).For(hook) == ScriptsOf(dir, hook);
    SettledExactly(WrappersOf(dir).For(hook), f, IsOurs(dir, hook, f));
  }

  /**
   * After a success each hook is the current wrapper, with the test of its
   * original if it is chained, whatever text it had before. A foreign hook has
   * become the original, and the report says which hooks were new, own or moved.
   */
  lemma SuccessOnDisk(dir: string, s: Checkout)
    requires Complete(WrappersOf(dir), s).result.Ok?
    ensures var out := Complete(WrappersOf(dir), s);
            var p, c := IsOurs(dir, PrepareCommitMsg, s.prepare), IsOurs(dir, CommitMsg, s.commit);
            && IsInstalled(dir, PrepareCommitMsg, s.prepare, out.state.prepare)
            && IsInstalled(dir, CommitMsg, s.commit, out.state.commit)
            && out.result.value == Outcome(
                 Picked(IsNew(s.prepare, p), IsNew(s.commit, c)), Picked(p, c),
                 Picked(IsForeign(s.prepare, p), IsForeign(s.commit, c)))
  {
    var ws := WrappersOf(dir);
    DistinctTexts(dir);
    CompletesExactly(ws, s);
    SettledOnDisk(dir, PrepareCommitMsg, s.prepare);
    SettledOnDisk(dir, CommitMsg, s.commit);
    OnDisk(dir, PrepareCommitMsg, s.prepare);
    OnDisk(dir, CommitMsg, s.commit);
    SuccessReports(ws, s, IsOurs(dir, PrepareCommitMsg, s.prepare), IsOurs(dir, CommitMsg, s.commit));
  }

  /** A second install after a successful one changes nothing. */
  lemma InstallIsIdempotent(ws: Wrappers, s: Checkout, steps: nat)
    requires ws.Distinct() && Complete(ws, s).result.Ok?
    ensures var t := Complete(ws, s).state;
            Install(ws, t, steps) == InstallRun(t, Ok(Outcome([], [PrepareCommitMsg, CommitMsg], [])))
  {
    CompletesExactly(ws, s);
    HookResumes(ws.prepare, s.prepare, 2);
    HookResumes(ws.commit, s.commit, 2);
    assert [] + [PrepareCommitMsg] + [CommitMsg] == [PrepareCommitMsg, CommitMsg];
  }

  lemma BrokenChainIsRefused(dir: string, s: Checkout, hook: HookKind, steps: nat)
    requires BrokenChain(dir, s, hook)
    ensures Install(WrappersOf(dir), s, steps) == InstallRun(s, Err(UnsafeOriginal))
  {
    BrokenOnDisk(dir, s, hook);
  }

  /** While one hook declares a chain it cannot run, no number of installs touches either hook. */
  lemma {:induction false} UnsafeChainBlocksBoth(dir: string, s: Checkout, hook: HookKind, runs: seq<nat>)
    requires BrokenChain(dir, s, hook)
    ensures Installs(WrappersOf(dir), s, runs) == s
    ensures forall steps :: Install(WrappersOf(dir), s, steps) == InstallRun(s, Err(UnsafeOriginal))
    decreases |runs|
  {
    forall steps ensures Install(WrappersOf(dir), s, steps) == InstallRun(s, Err(UnsafeOriginal)) {
      BrokenChainIsRefused(dir, s, hook, steps);
    }
    if runs != [] {
      UnsafeChainBlocksBoth(dir, s, hook, runs[1..]);
    }
  }

  /** A failed install changes files exactly when only the second hook is what fails. */
  lemma FailureIsPartialExactly(ws: Wrappers, s: Checkout)
    requires ws.Distinct() && Complete(ws, s).result.Err?
    ensures Complete(ws, s).state != s
       <==> && !PreflightRefuses(ws.commit, s.commit)
            && PlanHook(ws.commit, s.commit).Err?
            && PlanHook(ws.prepare, s.prepare).Ok?
            && PlanHook(ws.prepare, s.prepare) != Ok(Keep)
  {
    CompletesExactly(ws, s);
    if PlanHook(ws.prepare, s.prepare).Ok? {
      PlanChanges(ws.prepare, s.prepare);
      HookResumes(ws.prepare, s.prepare, 0);
    }
  }

  /** Nothing for one hook, and for the other a foreign executable hook whose backup path is taken. */
  function TakenBackup(hook: string, backup: Node): Checkout {
    Checkout(Files(Absent, Absent), Files(Regular(hook, true), backup))
  }

  lemma TakenBackupStops(ws: Wrappers, hook: string, backup: Node)
    requires backup != Absent && !ws.commit.Manages(hook)
    ensures var s := TakenBackup(hook, backup);
            Complete(ws, s)
            == InstallRun(s.(prepare := Files(Regular(ws.prepare.plain, true), Absent)), Err(BackupTaken))
  {
    assert PlanHook(ws.prepare, Files(Absent, Absent)) == Ok(Write(ws.prepare.plain, false));
    assert PlanHook(ws.commit, TakenBackup(hook, backup).commit) == Err(BackupTaken);
  }

  /** An install that an existing backup blocks has by then written the other hook. */
  lemma TakenBackupIsPartial(dir: string, hook: string, backup: Node)
    requires backup != Absent && !IsManaged(hook, CommitMsg, BackupPath(dir, CommitMsg))
    ensures var ws, s := WrappersOf(dir), TakenBackup(hook, backup);
            && Complete(ws, s).result == Err(BackupTaken)
            && Complete(ws, s).state.prepare.live == Regular(ws.prepare.plain, true)
            && Complete(ws, s).state.commit == s.commit
  {
    WrappersAreDistinct(dir, CommitMsg);
    TakenBackupStops(WrappersOf(dir), hook, backup);
  }

  /** An own wrapper that needs no new text but that Git will not run: it lacks the executable bit. */
  predicate IsCurrentButDead(w: Scripts, f: Files) {
    f.live == Regular(w.Desired(f.backup != Absent), false)
  }

  /**
   * After success each hook holds the current wrapper text, chained exactly
   * when a safe original is kept. It can be run exactly unless it held that
   * text without the executable bit before: such a file is left as it is.
   */
  lemma SuccessLeavesSafeChain(ws: Wrappers, s: Checkout, hook: HookKind)
    requires ws.Distinct() && Complete(ws, s).result.Ok?
    ensures var w, f := ws.For(hook), Of(Complete(ws, s).state, hook);
            && f.live.Regular?
            && f.live.bytes == w.Desired(f.backup != Absent)
            && (f.backup == Absent || IsSafe(f.backup))
            && (f.live.executable <==> !IsCurrentButDead(w, Of(s, hook)))
    ensures IsCurrentButDead(ws.For(hook), Of(s, hook)) <==>
            PlanHook(ws.For(hook), Of(s, hook)) == Ok(Keep) && !Of(s, hook).live.executable
  {
    CompletesExactly(ws, s);
    HookResumes(ws.For(hook), Of(s, hook), 0);
  }

  /** No number of installs gives such a file its executable bit. */
  lemma {:induction false} DeadWrapperStaysDead(ws: Wrappers, s: Checkout, runs: seq<nat>, hook: HookKind)
    requires ws.Distinct() && IsCurrentButDead(ws.For(hook), Of(s, hook))
    ensures Of(Installs(ws, s, runs), hook) == Of(s, hook)
    decreases |runs|
  {
    if runs != [] {
      DeadWrapperStaysDead(ws, Install(ws, s, runs[0]).state, runs[1..], hook);
    }
  }

  /** A prepare hook that holds its unchained wrapper without the executable bit, and nothing else. */
  function DeadPrepareHook(ws: Wrappers): Checkout {
    Checkout(Files(Regular(ws.prepare.plain, false), Absent), Files(Absent, Absent))
  }

  lemma DeadHookIsKept(ws: Wrappers)
    requires ws.Distinct()
    ensures var s := DeadPrepareHook(ws);
            Complete(ws, s) == InstallRun(s.(commit := Files(Regular(ws.commit.plain, true), Absent)),
                                          Ok(Outcome([CommitMsg], [PrepareCommitMsg], [])))
  {
    assert PlanHook(ws.prepare, DeadPrepareHook(ws).prepare) == Ok(Keep);
    assert PlanHook(ws.commit, Files(Absent, Absent)) == Ok(Write(ws.commit.plain, false));
    assert [] + [PrepareCommitMsg] == [PrepareCommitMsg] && [] + [CommitMsg] == [CommitMsg];
  }

  /** The install succeeds there, reports that hook as updated, and leaves it dead. */
  lemma DeadHookIsReportedUpdated(dir: string)
    ensures var ws, s := WrappersOf(dir), DeadPrepareHook(WrappersOf(dir));
            && Complete(ws, s).result == Ok(Outcome([CommitMsg], [PrepareCommitMsg], []))
            && Complete(ws, s).state.prepare == s.prepare && !s.prepare.live.executable
  {
    WrappersAreDistinct(dir, CommitMsg);
    DeadHookIsKept(WrappersOf(dir));
  }

  // --- Foreign hooks are never lost. ---

  ghost predicate IsOwn(w: Scripts, node: Node) {
    node.Regular? && w.Manages(node.bytes)
  }

  /**
   * What any number of installs, finished or not, can do to one hook: replace
   * an absent or own live hook by an own one and keep the backup, or move a
   * foreign executable hook, unchanged, to a backup that was absent.
   */
  ghost predicate Evolves(w: Scripts, f: Files, g: Files) {
    || g == f
    || (&& g.backup == f.backup
        && (f.live == Absent || IsOwn(w, f.live)) && IsOwn(w, g.live))
    || (&& f.backup == Absent && IsSafe(f.live) && !IsOwn(w, f.live)
        && g.backup == f.live && (g.live == Absent || IsOwn(w, g.live)))
  }

  lemma HookEvolves(w: Scripts, f: Files, steps: nat)
    ensures Evolves(w, f, RunHook(w, f, steps).files)
  {}

  lemma {:induction false} InstallsEvolve(ws: Wrappers, s: Checkout, runs: seq<nat>, hook: HookKind)
    ensures Evolves(ws.For(hook), Of(s, hook), Of(Installs(ws, s, runs), hook))
    decreases |runs|
  {
    if runs != [] {
      var first := RunHook(ws.prepare, s.prepare, runs[0]);
      HookEvolves(ws.prepare, s.prepare, runs[0]);
      HookEvolves(ws.commit, s.commit, first.left);
      InstallsEvolve(ws, Install(ws, s, runs[0]).state, runs[1..], hook);
    }
  }

  /**
   * Over any sequence of installs: a preserved original never changes, a hook
   * the installer does not own survives byte for byte and with its mode at the
   * live or the backup path, and an own wrapper is never preserved as original.
   */
  lemma ForeignHookSurvives(ws: Wrappers, s: Checkout, runs: seq<nat>, hook: HookKind)
    ensures var w, f, g := ws.For(hook), Of(s, hook), Of(Installs(ws, s, runs), hook);
            && (f.backup != Absent ==> g.backup == f.backup)
            && (f.live != Absent && !IsOwn(w, f.live) ==> g.live == f.live || g.backup == f.live)
            && (f.live.Symlink? || f.live.NotRegular? ==> g == f)
            && (IsOwn(w, g.backup) ==> g.backup == f.backup)
  {
    InstallsEvolve(ws, s, runs, hook);
  }

  /** A wrapper rendered for another hooks directory is foreign here. */
  lemma OtherDirectoryIsForeign(dir: string, other: string, hook: HookKind, preflight: bool)
    requires dir != other
    ensures !ScriptsOf(dir, hook).Manages(RenderWrapper(hook, Some(BackupPath(other, hook)), preflight))
  {
    var path, foreign := BackupPath(dir, hook), BackupPath(other, hook);
    BackupPathInjective(dir, other, hook);
    DeclaresExactly(hook, path, hook, Some(foreign), preflight);
    RenderInjective(hook, None, true, hook, Some(foreign), preflight);
  }

  lemma BackupPathInjective(dir: string, other: string, hook: HookKind)
    ensures BackupPath(dir, hook) == BackupPath(other, hook) ==> dir == other
  {
    var suffix := "/phasegent-original/" + Name(hook);
    assert BackupPath(dir, hook) == dir + suffix && BackupPath(other, hook) == other + suffix;
    SuffixCancel(dir, other, suffix);
  }

  lemma SuffixCancel(a: string, b: string, suffix: string)
    ensures a + suffix == b + suffix ==> a == b
  {
    if a + suffix == b + suffix {
      assert |a| == |b| && (a + suffix)[..|a|] == a && (b + suffix)[..|b|] == b;
    }
  }
}
