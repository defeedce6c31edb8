/** The timer ledger behind status transitions and issue close (src/lifecycle_auto.rs, src/infra/timer_store.rs). */
module TimerLedger {
  import opened Arithmetic
  import opened Text
  import opened Names
  import opened Orders
  import opened Decimals

  const MAX_AUTO_RUNS: nat := 64
  const MAX_FIELD_CHARS: nat := 128
  const TWO_TO_64: nat := 0x1_0000_0000_0000_0000

  const RUNNING: string := "running"
  const DONE: string := "DONE"

  /** One `execution_timer_runs` row, without its owner and projection columns. */
  datatype Run = Run(
    issue: int, phase: string, role: string, attempt: nat,
    startedAt: int, status: string, finishedAt: Option<int>, elapsed: int)

  /** The table, by its primary key `run_id`. */
  type Rows = map<string, Run>

  /** What one ledger step meets: route admission, the store, the clock and a generated run id. */
  datatype Weather = Admits(now: int, runId: string) | Unsupported | Refuses

  /** The weather of every step, in order. */
  type Forecast = nat -> Weather

  /** The ledger and the number of steps taken so far. */
  datatype World = World(rows: Rows, at: nat)

  /** `issue as i64`. */
  function AsI64(issue: nat): int {
    if issue <= I64_MAX then issue else issue - TWO_TO_64
  }

  // --- Which runs are open. ---

  predicate IsOpen(rows: Rows, issue: int, id: string) {
    id in rows && rows[id].issue == issue && rows[id].status == RUNNING
  }

  ghost function Open(rows: Rows, issue: int): set<string> {
    set id | id in rows && IsOpen(rows, issue, id)
  }

  /** `a` started no later than `b`. */
  predicate Older(rows: Rows, a: string, b: string) {
    a in rows && b in rows && rows[a].startedAt <= rows[b].startedAt
  }

  /** Any listing of an issue's open runs, newest start first. */
  ghost predicate ListsOpen(rows: Rows, issue: int, ids: seq<string>) {
    && Distinct(ids)
    && (forall id :: id in ids <==> IsOpen(rows, issue, id))
    && (forall i, j :: 0 <= i < j < |ids| ==> Older(rows, ids[j], ids[i]))
  }

  type Listing = (Rows, int) -> seq<string>

  ghost predicate IsListing(list: Listing) {
    forall rows, issue {:trigger list(rows, issue)} :: ListsOpen(rows, issue, list(rows, issue))
  }

  /** `list_running_runs_for_issue`: at most the 64 newest. */
  function Newest(list: Listing, rows: Rows, issue: int): seq<string> {
    var ids := list(rows, issue);
    if |ids| > MAX_AUTO_RUNS then ids[..MAX_AUTO_RUNS] else ids
  }

  // --- Finishing. ---

  function Finished(run: Run, now: int): Run {
    run.(status := DONE, finishedAt := Some(now), elapsed := now - run.startedAt)
  }

  /** `finish_timer_run` with the result DONE. */
  function FinishRun(rows: Rows, id: string, now: int): Option<Rows> {
    if id !in rows then None
    else
      var run := rows[id];
      if run.status != RUNNING then (if run.status == DONE then Some(rows) else None)
      else if now < run.startedAt then None
      else Some(rows[id := Finished(run, now)])
  }

  datatype Stepped = Stepped(world: World, ok: bool)

  /** `auto_finish_run`. */
  function AutoFinish(sky: Forecast, w: World, id: string): Stepped {
    match sky(w.at)
    case Admits(now, _) =>
      (match FinishRun(w.rows, id, now)
       case Some(rows) => Stepped(World(rows, w.at + 1), true)
       case None => Stepped(World(w.rows, w.at + 1), false))
    case _ => Stepped(World(w.rows, w.at + 1), false)
  }

  datatype Swept = Swept(world: World, finished: seq<string>, ok: bool)

  /** Finish the listed runs, the last one first, up to the first failure. */
  function Sweep(sky: Forecast, w: World, ids: seq<string>): Swept
    decreases |ids|
  {
    if ids == [] then Swept(w, [], true)
    else
      var oldest := ids[|ids| - 1];
      var step := AutoFinish(sky, w, oldest);
      if !step.ok then Swept(step.world, [], false)
      else
        var later := Sweep(sky, step.world, ids[..|ids| - 1]);
        Swept(later.world, [oldest] + later.finished, later.ok)
  }

  /** A sweep that has already finished some runs. */
  function After(finished: seq<string>, rest: Swept): Swept {
    rest.(finished := finished + rest.finished)
  }

  lemma SweepStep(sky: Forecast, w: World, ids: seq<string>, i: nat, finished: seq<string>)
    requires i < |ids|
    ensures var step := AutoFinish(sky, w, ids[i]);
            After(finished, Sweep(sky, w, ids[..i + 1])) ==
            if step.ok then After(finished + [ids[i]], Sweep(sky, step.world, ids[..i]))
            else Swept(step.world, finished, false)
  {
    assert ids[..i + 1][..i] == ids[..i] && ids[..i + 1][i] == ids[i];
    var step := AutoFinish(sky, w, ids[i]);
    if step.ok {
      var later := Sweep(sky, step.world, ids[..i]).finished;
      assert finished + ([ids[i]] + later) == finished + [ids[i]] + later;
    } else {
      assert finished + [] == finished;
    }
  }

  /** `close_issue_runs`: open the store, list, sweep. */
  function CloseRuns(sky: Forecast, list: Listing, w: World, issue: nat): Swept {
    var entered := World(w.rows, w.at + 1);
    if !sky(w.at).Admits? then Swept(entered, [], false)
    else Sweep(sky, entered, Newest(list, w.rows, AsI64(issue)))
  }

  // --- Starting. ---

  predicate IsField(value: string) {
    Trim(value) != [] && |value| <= MAX_FIELD_CHARS && !HasControl(value)
  }

  /** `start_timer_run_with_owner` without an owner, on the first attempt. */
  function StartRun(rows: Rows, id: string, issue: nat, phase: string, role: string, now: int): Option<Rows> {
    if !IsField(id) || issue == 0 || !IsField(phase) then None
    else if id in rows then
      var run := rows[id];
      if run.issue == AsI64(issue) && run.phase == phase && run.role == role && run.attempt == 1
         && run.status == RUNNING && run.startedAt == now
      then Some(rows) else None
    else if issue > I64_MAX then None
    else Some(rows[id := Run(issue, phase, role, 1, now, RUNNING, None, 0)])
  }

  function AutoStart(sky: Forecast, w: World, issue: nat, phase: string, role: string): Stepped {
    match sky(w.at)
    case Admits(now, id) =>
      (match StartRun(w.rows, id, issue, phase, role, now)
       case Some(rows) => Stepped(World(rows, w.at + 1), true)
       case None => Stepped(World(w.rows, w.at + 1), false))
    case _ => Stepped(World(w.rows, w.at + 1), false)
  }

  predicate StandsAt(s: string, part: string, i: nat) {
    i + |part| <= |s| && s[i..i + |part|] == part
  }

  predicate Contains(s: string, part: string) {
    exists i :: 0 <= i <= |s| && StandsAt(s, part, i)
  }

  /** `status_to_agent_role`: the role, and whether it is only a fallback. */
  function AgentRole(status: string): (string, bool) {
    var name := Lower(status);
    if Contains(name, "test") || Contains(name, "qa") || Contains(name, "review") then ("reviewer", false)
    else if Contains(name, "progress") || Contains(name, "dev") || Contains(name, "impl") then ("executor", false)
    else ("executor", true)
  }

  // --- Transitions and closes. ---

  datatype TransitionOutcome =
    | Started(finished: seq<string>, runId: string, warned: bool)
    | TransitionWarning
    | Skipped

  datatype Transitioned = Transitioned(world: World, outcome: TransitionOutcome)

  /** `auto_transition_timer`. */
  function Transition(sky: Forecast, list: Listing, w: World, forgejo: bool, issue: nat, status: string): Transitioned {
    if forgejo then Transitioned(w, Skipped)
    else
      var swept := CloseRuns(sky, list, w, issue);
      var (role, fallback) := AgentRole(status);
      var start := AutoStart(sky, swept.world, issue, status, role);
      Transitioned(
        start.world,
        if start.ok && sky(swept.world.at).Admits?
        then Started(if swept.ok then swept.finished else [], sky(swept.world.at).runId, fallback || !swept.ok)
        else TransitionWarning)
  }

  datatype CloseOutcome = Noop | Closed(finished: seq<string>) | CloseWarning

  datatype ClosedIssue = ClosedIssue(world: World, outcome: CloseOutcome)

  /** `auto_close_issue_timer`. */
  function Close(sky: Forecast, list: Listing, w: World, forgejo: bool, issue: nat): ClosedIssue {
    if forgejo then ClosedIssue(w, Noop)
    else
      var admitted := World(w.rows, w.at + 1);
      match sky(w.at)
      case Unsupported => ClosedIssue(admitted, Noop)
      case Refuses => ClosedIssue(admitted, CloseWarning)
      case Admits(_, _) =>
        var swept := CloseRuns(sky, list, admitted, issue);
        ClosedIssue(swept.world,
                    if !swept.ok then CloseWarning
                    else if swept.finished == [] then Noop
                    else Closed(swept.finished))
  }

  // --- The ledger changed in place. ---

  class Ledger {
    var rows: Rows
    var at: nat

    ghost function Now(): World
      reads this
    {
      World(rows, at)
    }

    constructor (rows: Rows)
      ensures Now() == World(rows, 0)
    {
      this.rows, this.at := rows, 0;
    }

    method AutoFinishRun(sky: Forecast, id: string) returns (ok: bool)
      modifies this
      ensures Stepped(Now(), ok) == AutoFinish(sky, old(Now()), id)
    {
      var weather := sky(at);
      at := at + 1;
      if !weather.Admits? || id !in rows {
        return false;
      }
      var run := rows[id];
      if run.status != RUNNING {
        return run.status == DONE;
      }
      if weather.now < run.startedAt {
        return false;
      }
      rows := rows[id := Finished(run, weather.now)];
      return true;
    }

    method CloseIssueRuns(sky: Forecast, list: Listing, issue: nat) returns (finished: seq<string>, ok: bool)
      modifies this
      ensures var swept := CloseRuns(sky, list, old(Now()), issue);
              Now() == swept.world && ok == swept.ok && finished == if ok then swept.finished else []
    {
      var weather := sky(at);
      at := at + 1;
      if !weather.Admits? {
        return [], false;
      }
      var running := Newest(list, rows, AsI64(issue));
      ghost var all := Sweep(sky, Now(), running);
      finished := [];
      assert running[..|running|] == running;
      assert all == After([], all);
      for i := |running| downto 0
        invariant all == After(finished, Sweep(sky, Now(), running[..i]))
      {
        SweepStep(sky, Now(), running, i, finished);
        var closed := AutoFinishRun(sky, running[i]);
        if !closed {
          return [], false;
        }
        finished := finished + [running[i]];
      }
      assert finished + [] == finished;
      return finished, true;
    }

    method AutoStartRun(sky: Forecast, issue: nat, phase: string, role: string) returns (runId: Option<string>)
      modifies this
      ensures Stepped(Now(), runId.Some?) == AutoStart(sky, old(Now()), issue, phase, role)
      ensures runId.Some? ==> sky(old(at)).Admits? && runId.value == sky(old(at)).runId
    {
      var weather := sky(at);
      at := at + 1;
      if !weather.Admits? {
        return None;
      }
      var id, now := weather.runId, weather.now;
      if !IsField(id) || issue == 0 || !IsField(phase) {
        return None;
      }
      if id in rows {
        var run := rows[id];
        if run.issue != AsI64(issue) || run.phase != phase || run.role != role || run.attempt != 1
          || run.status != RUNNING || run.startedAt != now
        {
          return None;
        }
        return Some(id);
      }
      if issue > I64_MAX {
        return None;
      }
      rows := rows[id := Run(issue, phase, role, 1, now, RUNNING, None, 0)];
      return Some(id);
    }

    method AutoTransitionTimer(sky: Forecast, list: Listing, forgejo: bool, issue: nat, status: string)
      returns (outcome: TransitionOutcome)
      modifies this
      ensures Transitioned(Now(), outcome) == Transition(sky, list, old(Now()), forgejo, issue, status)
    {
      if forgejo {
        return Skipped;
      }
      var (role, fallback) := AgentRole(status);
      var finished, swept := CloseIssueRuns(sky, list, issue);
      var runId := AutoStartRun(sky, issue, status, role);
      if runId.None? {
        return TransitionWarning;
      }
      return Started(finished, runId.value, fallback || !swept);
    }

    method AutoCloseIssueTimer(sky: Forecast, list: Listing, forgejo: bool, issue: nat) returns (outcome: CloseOutcome)
      modifies this
      ensures ClosedIssue(Now(), outcome) == Close(sky, list, old(Now()), forgejo, issue)
    {
      if forgejo {
        return Noop;
      }
      var weather := sky(at);
      at := at + 1;
      match weather {
        case Unsupported => return Noop;
        case Refuses => return CloseWarning;
        case Admits(_, _) =>
      }
      var finished, swept := CloseIssueRuns(sky, list, issue);
      if !swept {
        return CloseWarning;
      }
      return if finished == [] then Noop else Closed(finished);
    }
  }

  // --- The sweep. ---

  /** `after` is `before` finished at some moment not before its start. */
  ghost predicate IsFinishOf(before: Run, after: Run) {
    && after.finishedAt.Some?
    && after.finishedAt.value >= before.startedAt
    && after.status == "DONE" && after.elapsed == after.finishedAt.value - before.startedAt
    && after.issue == before.issue && after.phase == before.phase && after.role == before.role
    && after.attempt == before.attempt && after.startedAt == before.startedAt
  }

  /** Exactly the runs in `done` were finished; every other row is as it was. */
  ghost predicate FinishedExactly(rows: Rows, after: Rows, done: seq<string>) {
    && after.Keys == rows.Keys
    && forall id :: id in rows ==>
         if id in done then IsFinishOf(rows[id], after[id]) else after[id] == rows[id]
  }

  function Reversed(ids: seq<string>): seq<string> {
    if ids == [] then [] else [ids[|ids| - 1]] + Reversed(ids[..|ids| - 1])
  }

  ghost predicate AllOpen(rows: Rows, ids: seq<string>) {
    forall i :: 0 <= i < |ids| ==> ids[i] in rows && rows[ids[i]].status == RUNNING
  }

  lemma OneFinished(sky: Forecast, w: World, id: string)
    requires id in w.rows && w.rows[id].status == RUNNING
    ensures var step := AutoFinish(sky, w, id);
            && step.world.at == w.at + 1
            && FinishedExactly(w.rows, step.world.rows, if step.ok then [id] else [])
  {}

  lemma FinishedBoth(a: Rows, b: Rows, c: Rows, id: string, later: seq<string>, done: seq<string>)
    requires FinishedExactly(a, b, [id]) && FinishedExactly(b, c, later) && id !in later
    requires done == later + [id]
    ensures FinishedExactly(a, c, done)
  {}

  /**
   * The sweep stopped with `ids[..left]` still to do: exactly the older runs
   * are finished, and what stopped it is the failure of the next one.
   */
  ghost predicate StoppedAt(sky: Forecast, w: World, ids: seq<string>, left: nat, swept: Swept) {
    && left <= |ids| && (swept.ok <==> left == 0)
    && FinishedExactly(w.rows, swept.world.rows, ids[left..])
    && swept.finished == Reversed(ids[left..])
    && (left > 0 ==> !AutoFinish(sky, World(swept.world.rows, w.at + |ids| - left), ids[left - 1]).ok)
  }

  lemma SuffixOneLonger(newer: seq<string>, oldest: string, left: nat)
    requires left <= |newer|
    ensures (newer + [oldest])[left..] == newer[left..] + [oldest]
    ensures Reversed((newer + [oldest])[left..]) == [oldest] + Reversed(newer[left..])
  {
    var done := newer[left..] + [oldest];
    assert done[..|done| - 1] == newer[left..] && done[|done| - 1] == oldest;
    assert (newer + [oldest])[left..] == done;
  }

  lemma FinishedOneMore(rows: Rows, next: Rows, after: Rows, newer: seq<string>, oldest: string, left: nat)
    requires left <= |newer| && oldest !in newer
    requires FinishedExactly(rows, next, [oldest]) && FinishedExactly(next, after, newer[left..])
    ensures FinishedExactly(rows, after, (newer + [oldest])[left..])
  {
    SuffixOneLonger(newer, oldest, left);
    FinishedBoth(rows, next, after, oldest, newer[left..], (newer + [oldest])[left..]);
  }

  lemma StoppedOneEarlier(
    sky: Forecast, w: World, next: World, ids: seq<string>, newer: seq<string>, oldest: string, left: nat,
    later: Swept, swept: Swept)
    requires ids == newer + [oldest] && oldest !in newer && next.at == w.at + 1
    requires FinishedExactly(w.rows, next.rows, [oldest]) && StoppedAt(sky, next, newer, left, later)
    requires swept == Swept(later.world, [oldest] + later.finished, later.ok)
    ensures StoppedAt(sky, w, ids, left, swept)
  {
    FinishedOneMore(w.rows, next.rows, later.world.rows, newer, oldest, left);
    SuffixOneLonger(newer, oldest, left);
  }

  lemma NewerRuns(sky: Forecast, w: World, next: World, ids: seq<string>) returns (newer: seq<string>)
    requires ids != [] && Distinct(ids) && AllOpen(w.rows, ids)
    requires AutoFinish(sky, w, ids[|ids| - 1]) == Stepped(next, true)
    ensures newer == ids[..|ids| - 1] && ids == newer + [ids[|ids| - 1]]
    ensures Distinct(newer) && ids[|ids| - 1] !in newer && AllOpen(next.rows, newer)
    ensures next.at == w.at + 1 && FinishedExactly(w.rows, next.rows, [ids[|ids| - 1]])
  {
    newer := ids[..|ids| - 1];
    OneFinished(sky, w, ids[|ids| - 1]);
    StillOpen(w.rows, next.rows, ids[|ids| - 1], newer);
  }

  lemma SweepUnfolds(sky: Forecast, w: World, next: World, ids: seq<string>)
    requires ids != [] && AutoFinish(sky, w, ids[|ids| - 1]) == Stepped(next, true)
    ensures var later := Sweep(sky, next, ids[..|ids| - 1]);
            Sweep(sky, w, ids) == Swept(later.world, [ids[|ids| - 1]] + later.finished, later.ok)
  {}

  lemma SweepFails(sky: Forecast, w: World, ids: seq<string>)
    requires ids != [] && AllOpen(w.rows, ids) && !AutoFinish(sky, w, ids[|ids| - 1]).ok
    ensures StoppedAt(sky, w, ids, |ids|, Sweep(sky, w, ids))
  {
    OneFinished(sky, w, ids[|ids| - 1]);
    assert ids[|ids|..] == [];
  }

  /**
   * The sweep finishes runs from the oldest on; when one fails, exactly the
   * older ones are finished and the failed one and all newer ones keep running.
   */
  lemma {:induction false} SweepStops(sky: Forecast, w: World, ids: seq<string>) returns (left: nat)
    requires Distinct(ids) && AllOpen(w.rows, ids)
    ensures StoppedAt(sky, w, ids, left, Sweep(sky, w, ids))
    decreases |ids|
  {
    if ids == [] {
      left := 0;
    } else {
      var n := |ids| - 1;
      var step := AutoFinish(sky, w, ids[n]);
      if step.ok {
        var newer := NewerRuns(sky, w, step.world, ids);
        var later := Sweep(sky, step.world, newer);
        left := SweepStops(sky, step.world, newer);
        SweepUnfolds(sky, w, step.world, ids);
        StoppedOneEarlier(sky, w, step.world, ids, newer, ids[n], left, later, Sweep(sky, w, ids));
      } else {
        left := |ids|;
        SweepFails(sky, w, ids);
      }
    }
  }

  lemma StillOpen(rows: Rows, after: Rows, id: string, newer: seq<string>)
    requires FinishedExactly(rows, after, [id]) && AllOpen(rows, newer) && id !in newer
    ensures AllOpen(after, newer)
  {
    forall i | 0 <= i < |newer| ensures newer[i] in after && after[newer[i]].status == RUNNING {
      assert newer[i] in newer;
    }
  }

  // --- When a finish fails. ---

  /** The turn of `ids[i]` comes after one step for each older run; it works if admitted and not before its start. */
  predicate CanFinish(sky: Forecast, rows: Rows, ids: seq<string>, at: nat, i: int) {
    && 0 <= i < |ids| && ids[i] in rows
    && var n := at + (|ids| - 1 - i);
       sky(n).Admits? && sky(n).now >= rows[ids[i]].startedAt
  }

  /** `ids[left - 1]` is the oldest run that cannot be finished in its turn; with none, `left` is 0. */
  ghost predicate FailsFirst(sky: Forecast, rows: Rows, ids: seq<string>, at: nat, left: nat) {
    && left <= |ids|
    && (left > 0 ==> !CanFinish(sky, rows, ids, at, left - 1))
    && forall i :: left <= i < |ids| ==> CanFinish(sky, rows, ids, at, i)
  }

  lemma FinishesInTurn(sky: Forecast, w: World, ids: seq<string>)
    requires ids != [] && AllOpen(w.rows, ids)
    ensures AutoFinish(sky, w, ids[|ids| - 1]).ok <==> CanFinish(sky, w.rows, ids, w.at, |ids| - 1)
  {}

  lemma SameTurn(sky: Forecast, w: World, next: World, ids: seq<string>, newer: seq<string>, oldest: string, i: int)
    requires ids == newer + [oldest] && oldest !in newer && next.at == w.at + 1
    requires FinishedExactly(w.rows, next.rows, [oldest]) && i < |newer|
    ensures CanFinish(sky, next.rows, newer, next.at, i) <==> CanFinish(sky, w.rows, ids, w.at, i)
  {
    if 0 <= i {
      assert newer[i] in newer && ids[i] == newer[i];
    }
  }

  lemma FailsOneEarlier(
    sky: Forecast, w: World, next: World, ids: seq<string>, newer: seq<string>, oldest: string, left: nat)
    requires ids == newer + [oldest] && oldest !in newer && next.at == w.at + 1
    requires FinishedExactly(w.rows, next.rows, [oldest]) && FailsFirst(sky, next.rows, newer, next.at, left)
    requires CanFinish(sky, w.rows, ids, w.at, |newer|)
    ensures FailsFirst(sky, w.rows, ids, w.at, left)
  {
    if left > 0 {
      SameTurn(sky, w, next, ids, newer, oldest, left - 1);
    }
    forall i | left <= i < |newer| ensures CanFinish(sky, w.rows, ids, w.at, i) {
      SameTurn(sky, w, next, ids, newer, oldest, i);
    }
  }

  /** The sweep stops at the oldest run that cannot be finished in its turn. */
  lemma {:induction false} SweepTurns(sky: Forecast, w: World, ids: seq<string>) returns (left: nat)
    requires Distinct(ids) && AllOpen(w.rows, ids)
    ensures FailsFirst(sky, w.rows, ids, w.at, left) && |Sweep(sky, w, ids).finished| == |ids| - left
    decreases |ids|
  {
    if ids == [] {
      left := 0;
    } else {
      var n := |ids| - 1;
      var step := AutoFinish(sky, w, ids[n]);
      FinishesInTurn(sky, w, ids);
      if step.ok {
        var newer := NewerRuns(sky, w, step.world, ids);
        left := SweepTurns(sky, step.world, newer);
        SweepUnfolds(sky, w, step.world, ids);
        FailsOneEarlier(sky, w, step.world, ids, newer, ids[n], left);
      } else {
        left := |ids|;
      }
    }
  }

  lemma {:induction false} ReversedLength(ids: seq<string>)
    ensures |Reversed(ids)| == |ids|
    decreases |ids|
  {
    if ids != [] {
      ReversedLength(ids[..|ids| - 1]);
    }
  }

  /** Where the sweep stops and what it leaves, from the ledger, the clock and admission alone. */
  lemma SweepMeans(sky: Forecast, w: World, ids: seq<string>) returns (left: nat)
    requires Distinct(ids) && AllOpen(w.rows, ids)
    ensures FailsFirst(sky, w.rows, ids, w.at, left) && StoppedAt(sky, w, ids, left, Sweep(sky, w, ids))
  {
    left := SweepStops(sky, w, ids);
    var turn := SweepTurns(sky, w, ids);
    ReversedLength(ids[left..]);
  }

  // --- The sweep as its comment describes it. ---

  /** Finish the listed runs, the last one first, and go on past failures. */
  function SweepOn(sky: Forecast, w: World, ids: seq<string>): World
    decreases |ids|
  {
    if ids == [] then w
    else SweepOn(sky, AutoFinish(sky, w, ids[|ids| - 1]).world, ids[..|ids| - 1])
  }

  /** No run newer than one that cannot be finished in its turn could be. */
  ghost predicate FailsToTheEnd(sky: Forecast, rows: Rows, ids: seq<string>, at: nat) {
    forall i, j :: 0 <= i < j < |ids| && !CanFinish(sky, rows, ids, at, j) ==> !CanFinish(sky, rows, ids, at, i)
  }

  ghost predicate NoneCanFinish(sky: Forecast, rows: Rows, ids: seq<string>, at: nat) {
    forall i :: 0 <= i < |ids| ==> !CanFinish(sky, rows, ids, at, i)
  }

  lemma {:induction false} StaysFinished(sky: Forecast, w: World, ids: seq<string>, id: string)
    requires id in w.rows && w.rows[id].status == DONE
    ensures id in SweepOn(sky, w, ids).rows && SweepOn(sky, w, ids).rows[id].status == DONE
    decreases |ids|
  {
    if ids != [] {
      StaysFinished(sky, AutoFinish(sky, w, ids[|ids| - 1]).world, ids[..|ids| - 1], id);
    }
  }

  lemma NoneAfterFailure(sky: Forecast, rows: Rows, ids: seq<string>, newer: seq<string>, at: nat, next: nat)
    requires ids != [] && newer == ids[..|ids| - 1] && next == at + 1
    requires !CanFinish(sky, rows, ids, at, |ids| - 1)
    ensures NoneCanFinish(sky, rows, newer, next) <==> NoneCanFinish(sky, rows, ids, at)
  {
    forall i | 0 <= i < |newer|
      ensures CanFinish(sky, rows, newer, next, i) <==> CanFinish(sky, rows, ids, at, i)
    {
      assert newer[i] == ids[i];
    }
    forall i | 0 <= i < |ids| && NoneCanFinish(sky, rows, newer, next) ensures !CanFinish(sky, rows, ids, at, i) {
      assert i < |newer| || i == |ids| - 1;
    }
  }

  /** Going on changes nothing exactly when no listed run can be finished in its turn. */
  lemma {:induction false} SweepOnIdle(sky: Forecast, w: World, ids: seq<string>)
    requires AllOpen(w.rows, ids)
    ensures SweepOn(sky, w, ids).rows == w.rows <==> NoneCanFinish(sky, w.rows, ids, w.at)
    decreases |ids|
  {
    if ids != [] {
      var n := |ids| - 1;
      var step := AutoFinish(sky, w, ids[n]);
      FinishesInTurn(sky, w, ids);
      if step.ok {
        StaysFinished(sky, step.world, ids[..n], ids[n]);
        StatusesDiffer();
      } else {
        assert step.world == World(w.rows, w.at + 1);
        SweepOnIdle(sky, step.world, ids[..n]);
        NoneAfterFailure(sky, w.rows, ids, ids[..n], w.at, w.at + 1);
      }
    }
  }

  lemma StatusesDiffer()
    ensures RUNNING != DONE
  {
    assert RUNNING[0] == 'r' && DONE[0] == 'D';
  }

  /** The code leaves the ledger as the sweep of its comment would exactly when no later finish could work. */
  lemma {:induction false} SweepGoesOnExactly(sky: Forecast, w: World, ids: seq<string>)
    requires Distinct(ids) && AllOpen(w.rows, ids)
    ensures Sweep(sky, w, ids).world.rows == SweepOn(sky, w, ids).rows
       <==> FailsToTheEnd(sky, w.rows, ids, w.at)
    decreases |ids|
  {
    if ids != [] {
      var n := |ids| - 1;
      var step := AutoFinish(sky, w, ids[n]);
      FinishesInTurn(sky, w, ids);
      if step.ok {
        var newer := NewerRuns(sky, w, step.world, ids);
        SweepUnfolds(sky, w, step.world, ids);
        SweepGoesOnExactly(sky, step.world, newer);
        FailsAlike(sky, w, step.world, ids, newer, ids[n]);
      } else {
        SweepOnIdle(sky, w, ids);
        FirstFailureIsLast(sky, w.rows, ids, w.at);
      }
    }
  }

  lemma FailsAlike(sky: Forecast, w: World, next: World, ids: seq<string>, newer: seq<string>, oldest: string)
    requires ids == newer + [oldest] && oldest !in newer && next.at == w.at + 1
    requires FinishedExactly(w.rows, next.rows, [oldest]) && CanFinish(sky, w.rows, ids, w.at, |newer|)
    ensures FailsToTheEnd(sky, next.rows, newer, next.at) <==> FailsToTheEnd(sky, w.rows, ids, w.at)
  {
    forall i | 0 <= i < |newer|
      ensures CanFinish(sky, next.rows, newer, next.at, i) <==> CanFinish(sky, w.rows, ids, w.at, i)
    {
      SameTurn(sky, w, next, ids, newer, oldest, i);
    }
  }

  lemma FirstFailureIsLast(sky: Forecast, rows: Rows, ids: seq<string>, at: nat)
    requires ids != [] && !CanFinish(sky, rows, ids, at, |ids| - 1)
    ensures FailsToTheEnd(sky, rows, ids, at) <==> NoneCanFinish(sky, rows, ids, at)
  {
    if FailsToTheEnd(sky, rows, ids, at) {
      forall i | 0 <= i < |ids| ensures !CanFinish(sky, rows, ids, at, i) {
        assert i < |ids| - 1 || i == |ids| - 1;
      }
    }
  }

  lemma NewestAreOpen(list: Listing, rows: Rows, issue: int)
    requires IsListing(list)
    ensures var ids := Newest(list, rows, issue);
            && Distinct(ids) && AllOpen(rows, ids)
            && Elements(ids) <= Open(rows, issue)
            && |ids| == Min(|Open(rows, issue)|, MAX_AUTO_RUNS)
            && (forall i, j :: 0 <= i < j < |ids| ==> Older(rows, ids[j], ids[i]))
            && (forall id, kept :: id in ids && IsOpen(rows, issue, kept) && kept !in ids ==> Older(rows, kept, id))
  {
    var all, ids := list(rows, issue), Newest(list, rows, issue);
    assert ListsOpen(rows, issue, all);
    DistinctSize(all);
    assert Elements(all) == Open(rows, issue);
    assert forall i :: 0 <= i < |ids| ==> ids[i] == all[i];
    forall i | 0 <= i < |ids| ensures IsOpen(rows, issue, ids[i]) {
      assert all[i] in all;
    }
    forall id, kept | id in ids && IsOpen(rows, issue, kept) && kept !in ids
      ensures Older(rows, kept, id)
    {
      assert kept in all;
      var i :| 0 <= i < |ids| && ids[i] == id;
      var j :| 0 <= j < |all| && all[j] == kept;
      assert j >= |ids|;
    }
  }

  /** What is open after exactly `done` was finished. */
  lemma OpenAfter(rows: Rows, after: Rows, done: seq<string>, issue: int)
    requires FinishedExactly(rows, after, done)
    ensures Open(after, issue) == Open(rows, issue) - Elements(done)
  {
    StatusesDiffer();
    forall id ensures id in Open(after, issue) <==> id in Open(rows, issue) && id !in done {
      if id in rows {
      }
    }
  }

  /** Open runs left when a sweep of an issue with `open` of them succeeds. */
  function LeftOpen(open: nat): nat {
    open - Min(open, MAX_AUTO_RUNS)
  }

  /** A successful sweep finishes exactly the 64 newest open runs, all of them if there are no more. */
  lemma CloseRunsFinishes(sky: Forecast, list: Listing, w: World, issue: nat)
    requires IsListing(list) && CloseRuns(sky, list, w, issue).ok
    ensures FinishedExactly(w.rows, CloseRuns(sky, list, w, issue).world.rows, Newest(list, w.rows, AsI64(issue)))
  {
    var ids := Newest(list, w.rows, AsI64(issue));
    NewestAreOpen(list, w.rows, AsI64(issue));
    var left := SweepStops(sky, World(w.rows, w.at + 1), ids);
    assert ids[0..] == ids;
  }

  /** What the finished listing leaves open, for this issue and for the others. */
  lemma NewestFinished(list: Listing, rows: Rows, after: Rows, key: int)
    requires IsListing(list) && FinishedExactly(rows, after, Newest(list, rows, key))
    ensures |Open(after, key)| == LeftOpen(|Open(rows, key)|)
    ensures forall other :: other != key ==> Open(after, other) == Open(rows, other)
  {
    var ids := Newest(list, rows, key);
    NewestAreOpen(list, rows, key);
    OpenAfter(rows, after, ids, key);
    DistinctSize(ids);
    DifferenceSize(Open(rows, key), Elements(ids));
    forall other | other != key ensures Open(after, other) == Open(rows, other) {
      OpenAfter(rows, after, ids, other);
      OtherIssue(rows, key, other);
    }
  }

  lemma OtherIssue(rows: Rows, key: int, other: int)
    requires key != other
    ensures Open(rows, key) !! Open(rows, other)
  {}

  lemma DifferenceSize<T>(s: set<T>, t: set<T>)
    requires t <= s
    ensures |s - t| == |s| - |t|
  {
    assert s == (s - t) + t;
  }

  /** A sweep succeeds exactly if the store opens and each listed run can be finished in its turn. */
  lemma CloseRunsSucceedsExactly(sky: Forecast, list: Listing, w: World, issue: nat)
    requires IsListing(list)
    ensures var ids := Newest(list, w.rows, AsI64(issue));
            CloseRuns(sky, list, w, issue).ok
            <==> sky(w.at).Admits? && FailsFirst(sky, w.rows, ids, w.at + 1, 0)
  {
    if sky(w.at).Admits? {
      var left := FailedSweepKeepsNewer(sky, list, w, issue);
    }
  }

  /**
   * The oldest run that cannot be finished in its turn and all newer ones keep
   * running; exactly the older runs are finished.
   */
  lemma FailedSweepKeepsNewer(sky: Forecast, list: Listing, w: World, issue: nat) returns (left: nat)
    requires IsListing(list) && sky(w.at).Admits?
    ensures var swept, ids := CloseRuns(sky, list, w, issue), Newest(list, w.rows, AsI64(issue));
            && FailsFirst(sky, w.rows, ids, w.at + 1, left) && (swept.ok <==> left == 0)
            && FinishedExactly(w.rows, swept.world.rows, ids[left..])
            && (forall i, j :: 0 <= i < left <= j < |ids| ==> Older(w.rows, ids[j], ids[i]))
  {
    var ids := Newest(list, w.rows, AsI64(issue));
    NewestAreOpen(list, w.rows, AsI64(issue));
    left := SweepMeans(sky, World(w.rows, w.at + 1), ids);
  }

  /**
   * The sweep leaves the ledger as one that goes on past failures would exactly
   * when no run newer than one that cannot be finished could be: when none
   * fails, for one, or only the newest.
   */
  lemma GoesOnExactly(sky: Forecast, list: Listing, w: World, issue: nat)
    requires IsListing(list) && sky(w.at).Admits?
    ensures var ids := Newest(list, w.rows, AsI64(issue));
            CloseRuns(sky, list, w, issue).world.rows == SweepOn(sky, World(w.rows, w.at + 1), ids).rows
            <==> FailsToTheEnd(sky, w.rows, ids, w.at + 1)
  {
    NewestAreOpen(list, w.rows, AsI64(issue));
    SweepGoesOnExactly(sky, World(w.rows, w.at + 1), Newest(list, w.rows, AsI64(issue)));
  }

  /** Two open runs of one issue. */
  const TWO_RUNS: Rows := map["a" := Run(1, "P", "executor", 1, 1, RUNNING, None, 0),
                              "b" := Run(1, "P", "executor", 1, 2, RUNNING, None, 0)]

  lemma TwoRunsListed(list: Listing)
    requires IsListing(list)
    ensures Newest(list, TWO_RUNS, 1) == ["b", "a"]
  {
    var ids := list(TWO_RUNS, 1);
    assert ListsOpen(TWO_RUNS, 1, ids);
    assert "a" != "b" && "a" in ids && "b" in ids;
    assert forall id :: id in ids ==> id == "a" || id == "b";
    assert Elements(ids) == {"a", "b"};
    DistinctSize(ids);
    assert |ids| == 2 && ids[0] in ids && ids[1] in ids && ids[0] != ids[1];
    assert Older(TWO_RUNS, ids[1], ids[0]);
  }

  /** Only the first finish is not admitted, and yet both runs stay open; going on would finish the newer one. */
  lemma SweepGivesUp(list: Listing)
    requires IsListing(list)
    ensures var sky: Forecast := (n: nat) => if n == 1 then Refuses else Admits(10 + n, "c");
            var swept := CloseRuns(sky, list, World(TWO_RUNS, 0), 1);
            var onward := SweepOn(sky, World(TWO_RUNS, 1), ["b", "a"]);
            && swept == Swept(World(TWO_RUNS, 2), [], false)
            && onward.rows == TWO_RUNS["b" := Finished(TWO_RUNS["b"], 12)]
  {
    TwoRunsListed(list);
    var ids := ["b", "a"];
    assert ids[..1] == ["b"] && ids[..1][..0] == [];
  }

  // --- One transition. ---

  /** Everything the transition tried worked. */
  ghost predicate Succeeds(sky: Forecast, list: Listing, w: World, issue: nat, status: string) {
    CloseRuns(sky, list, w, issue).ok && Transition(sky, list, w, false, issue, status).outcome.Started?
  }

  /** Starting a run: the ledger gains it, or already had it open. */
  lemma StartOpens(rows: Rows, id: string, issue: nat, phase: string, role: string, now: int)
    requires StartRun(rows, id, issue, phase, role, now).Some?
    ensures var key, after := AsI64(issue), StartRun(rows, id, issue, phase, role, now).value;
            && Open(after, key) == Open(rows, key) + {id}
            && (id in rows ==> id in Open(rows, key))
            && (forall other :: other != key ==> Open(after, other) == Open(rows, other))
            && (forall r :: r in rows ==> r in after && after[r] == rows[r])
  {}

  /**
   * A successful transition opens one run for the issue and changes no other
   * issue's row. A fresh run is the issue's only open one exactly when the
   * issue had at most 64 open runs before.
   */
  lemma TransitionOpensOne(sky: Forecast, list: Listing, w: World, issue: nat, status: string)
    requires IsListing(list) && Succeeds(sky, list, w, issue, status)
    ensures var key, t := AsI64(issue), Transition(sky, list, w, false, issue, status);
            var id, after := t.outcome.runId, t.world.rows;
            && id in Open(after, key)
            && |Open(after, key)| == (if |Open(w.rows, key)| > 64 then |Open(w.rows, key)| - 64 else 0)
                                     + (if id in w.rows then 0 else 1)
            && (id !in w.rows ==> (Open(after, key) == {id} <==> |Open(w.rows, key)| <= MAX_AUTO_RUNS))
            && (forall other :: other != key ==> Open(after, other) == Open(w.rows, other))
            && (forall r :: r in w.rows && w.rows[r].issue != key ==> r in after && after[r] == w.rows[r])
  {
    var key, t := AsI64(issue), Transition(sky, list, w, false, issue, status);
    var mid := CloseRuns(sky, list, w, issue).world;
    CloseRunsFinishes(sky, list, w, issue);
    NewestFinished(list, w.rows, mid.rows, key);
    NewestAreOpen(list, w.rows, key);
    var id, after := t.outcome.runId, t.world.rows;
    StartOpens(mid.rows, id, issue, status, AgentRole(status).0, sky(mid.at).now);
    OnlyOne(Open(mid.rows, key), id);
    forall r | r in w.rows && w.rows[r].issue != key ensures r in after && after[r] == w.rows[r] {
      assert r !in Open(w.rows, key);
      assert r !in Elements(Newest(list, w.rows, key));
    }
  }

  lemma OnlyOne(s: set<string>, id: string)
    ensures |s + {id}| == |s| + (if id in s then 0 else 1)
    ensures id !in s ==> (s + {id} == {id} <==> |s| == 0)
  {
    if id in s {
      assert s + {id} == s;
    } else if s + {id} == {id} {
      assert s == {};
    }
  }

  /**
   * A transition starts its run next to the open runs its sweep did not
   * reach. If a finish failed it warns and reports none of those that worked.
   */
  lemma FailedSweepStillStarts(sky: Forecast, list: Listing, w: World, issue: nat, status: string)
    returns (left: nat)
    requires IsListing(list) && sky(w.at).Admits?
    requires Transition(sky, list, w, false, issue, status).outcome.Started?
    ensures FailsFirst(sky, w.rows, Newest(list, w.rows, AsI64(issue)), w.at + 1, left)
    ensures var key, t := AsI64(issue), Transition(sky, list, w, false, issue, status);
            var ids := Newest(list, w.rows, key);
            && (left > 0 ==> t.outcome.finished == [] && t.outcome.warned)
            && Open(t.world.rows, key) == Open(w.rows, key) - Elements(ids[left..]) + {t.outcome.runId}
  {
    var key, t := AsI64(issue), Transition(sky, list, w, false, issue, status);
    var mid := CloseRuns(sky, list, w, issue).world;
    left := FailedSweepKeepsNewer(sky, list, w, issue);
    OpenAfter(w.rows, mid.rows, Newest(list, w.rows, key)[left..], key);
    StartOpens(mid.rows, t.outcome.runId, issue, status, AgentRole(status).0, sky(mid.at).now);
  }

  // --- What one event leaves and reports. ---

  /** `as i64` keeps the low 64 bits, read with a sign. */
  lemma AsI64Exactly(issue: nat)
    requires issue < TWO_TO_64
    ensures -(I64_MAX + 1) <= AsI64(issue) <= I64_MAX
    ensures AsI64(issue) == issue || AsI64(issue) + TWO_TO_64 == issue
  {}

  lemma FieldExactly(value: string)
    ensures IsField(value) <==> IsText(value, 128)
  {
    TrimIsEmpty(value);
  }

  /** One finish works on an open run that started by now, and on a finished one, which it leaves alone. */
  lemma FinishExactly(sky: Forecast, w: World, id: string)
    ensures var step := AutoFinish(sky, w, id);
            && step.world.at == w.at + 1
            && (step.ok <==> && sky(w.at).Admits? && id in w.rows
                             && (w.rows[id].status == "DONE"
                                 || (w.rows[id].status == "running" && w.rows[id].startedAt <= sky(w.at).now)))
            && (step.world.rows != w.rows ==> && step.ok && w.rows[id].status == "running"
                                              && step.world.rows.Keys == w.rows.Keys
                                              && IsFinishOf(w.rows[id], step.world.rows[id])
                                              && step.world.rows[id].finishedAt == Some(sky(w.at).now))
  {
    StatusesDiffer();
  }

  /** The status holds one of these words, in any letter case. */
  ghost predicate Mentions(status: string, words: set<string>) {
    exists pre, word, post :: status == pre + word + post && Lower(word) in words
  }

  lemma ContainsExactly(status: string, part: string)
    ensures Contains(Lower(status), part) <==> Mentions(status, {part})
  {
    if Contains(Lower(status), part) {
      var i :| 0 <= i <= |status| && StandsAt(Lower(status), part, i);
      var word := status[i..i + |part|];
      assert Lower(word) == part;
      assert status == status[..i] + word + status[i + |part|..];
    }
    if Mentions(status, {part}) {
      var pre, word, post :| status == pre + word + post && Lower(word) in {part};
      assert |Lower(word)| == |word|;
      assert Lower(status)[|pre|..|pre| + |word|] == Lower(word);
      assert StandsAt(Lower(status), part, |pre|);
    }
  }

  lemma MentionsOne(status: string, a: string, b: string, c: string)
    ensures Mentions(status, {a, b, c}) <==> Mentions(status, {a}) || Mentions(status, {b}) || Mentions(status, {c})
  {
    if Mentions(status, {a, b, c}) {
      var pre, word, post :| status == pre + word + post && Lower(word) in {a, b, c};
      assert Lower(word) in {a} || Lower(word) in {b} || Lower(word) in {c};
    }
    forall part | part in {a, b, c} && Mentions(status, {part}) ensures Mentions(status, {a, b, c}) {
      var pre, word, post :| status == pre + word + post && Lower(word) in {part};
    }
  }

  ghost predicate IsReviewed(status: string) {
    Mentions(status, {"test", "qa", "review"})
  }

  ghost predicate IsDeveloped(status: string) {
    Mentions(status, {"progress", "dev", "impl"})
  }

  /** The reviewer has every status that mentions its words, whatever else it mentions; the executor has the rest. */
  lemma RoleExactly(status: string)
    ensures AgentRole(status).0 == (if IsReviewed(status) then "reviewer" else "executor")
    ensures AgentRole(status).1 <==> !IsReviewed(status) && !IsDeveloped(status)
  {
    ContainsExactly(status, "test");
    ContainsExactly(status, "qa");
    ContainsExactly(status, "review");
    ContainsExactly(status, "progress");
    ContainsExactly(status, "dev");
    ContainsExactly(status, "impl");
    MentionsOne(status, "test", "qa", "review");
    MentionsOne(status, "progress", "dev", "impl");
  }

  lemma {:induction false} ReversedAt(ids: seq<string>, k: nat)
    requires k < |ids|
    ensures |Reversed(ids)| == |ids| && Reversed(ids)[k] == ids[|ids| - 1 - k]
    decreases |ids|
  {
    ReversedLength(ids);
    if k > 0 {
      ReversedAt(ids[..|ids| - 1], k - 1);
    }
  }

  lemma StartRunMeans(rows: Rows, id: string, issue: nat, phase: string, role: string, now: int)
    ensures var started := StartRun(rows, id, issue, phase, role, now);
            && (id !in rows ==> (started.Some? <==> IsText(id, 128) && 0 < issue <= I64_MAX && IsText(phase, 128)))
            && (started.Some? && id !in rows ==>
                  started.value == rows[id := Run(issue, phase, role, 1, now, "running", None, 0)])
            && (started.Some? && id in rows ==>
                  && started.value == rows
                  && rows[id].issue == AsI64(issue) && rows[id].phase == phase && rows[id].role == role
                  && rows[id].attempt == 1 && rows[id].startedAt == now && rows[id].status == "running")
  {
    FieldExactly(id);
    FieldExactly(phase);
  }

  lemma SweepKeepsKeys(sky: Forecast, list: Listing, w: World, issue: nat)
    requires IsListing(list)
    ensures CloseRuns(sky, list, w, issue).world.rows.Keys == w.rows.Keys
  {
    if sky(w.at).Admits? {
      var left := FailedSweepKeepsNewer(sky, list, w, issue);
    }
  }

  /**
   * What a started run is: the row of the generated id holds the issue, the
   * status as its phase, the role of that status, the first attempt and the
   * moment of its start. The outcome lists the finished runs, oldest first, if
   * all could be finished, and warns exactly if one could not or the status
   * names no role.
   */
  lemma StartedRun(sky: Forecast, list: Listing, w: World, issue: nat, status: string)
    requires IsListing(list) && Transition(sky, list, w, false, issue, status).outcome.Started?
    ensures var t, swept := Transition(sky, list, w, false, issue, status), CloseRuns(sky, list, w, issue);
            var id, start := t.outcome.runId, sky(swept.world.at);
            var role := if IsReviewed(status) then "reviewer" else "executor";
            && start.Admits? && id == start.runId && id in t.world.rows && t.world.at == swept.world.at + 1
            && (id !in w.rows ==>
                  t.world.rows == swept.world.rows[id := Run(issue, status, role, 1, start.now, "running", None, 0)])
            && (id in w.rows ==>
                  && t.world.rows == swept.world.rows
                  && var run := t.world.rows[id];
                     && run.issue == AsI64(issue) && run.phase == status && run.role == role
                     && run.attempt == 1 && run.startedAt == start.now && run.status == "running")
            && (t.outcome.warned <==> !swept.ok || (!IsReviewed(status) && !IsDeveloped(status)))
            && (swept.ok ==> t.outcome.finished == Reversed(Newest(list, w.rows, AsI64(issue))))
            && (!swept.ok ==> t.outcome.finished == [])
  {
    var swept := CloseRuns(sky, list, w, issue);
    RoleExactly(status);
    SweepKeepsKeys(sky, list, w, issue);
    StartRunMeans(
      swept.world.rows, sky(swept.world.at).runId, issue, status, AgentRole(status).0, sky(swept.world.at).now);
    if swept.ok {
      SweptAll(sky, list, w, issue);
    }
  }

  lemma SweptAll(sky: Forecast, list: Listing, w: World, issue: nat)
    requires IsListing(list) && CloseRuns(sky, list, w, issue).ok
    ensures CloseRuns(sky, list, w, issue).finished == Reversed(Newest(list, w.rows, AsI64(issue)))
  {
    var ids := Newest(list, w.rows, AsI64(issue));
    NewestAreOpen(list, w.rows, AsI64(issue));
    var left := SweepStops(sky, World(w.rows, w.at + 1), ids);
    StoppedAtNone(sky, World(w.rows, w.at + 1), ids, left, CloseRuns(sky, list, w, issue));
  }

  lemma StoppedAtNone(sky: Forecast, w: World, ids: seq<string>, left: nat, swept: Swept)
    requires StoppedAt(sky, w, ids, left, swept) && swept.ok
    ensures swept.finished == Reversed(ids)
  {
    assert ids[0..] == ids;
  }

  /** With an unused id a run starts exactly if the store admits it and id, issue and status can be stored. */
  lemma StartsExactly(sky: Forecast, list: Listing, w: World, issue: nat, status: string)
    requires IsListing(list)
    ensures var start := sky(CloseRuns(sky, list, w, issue).world.at);
            var outcome := Transition(sky, list, w, false, issue, status).outcome;
            && (start.Admits? && start.runId !in w.rows ==>
                  (outcome.Started? <==> IsText(start.runId, 128) && 0 < issue <= I64_MAX && IsText(status, 128)))
            && (!start.Admits? ==> outcome == TransitionWarning)
            && (outcome.Started? || outcome == TransitionWarning)
  {
    var swept := CloseRuns(sky, list, w, issue);
    SweepKeepsKeys(sky, list, w, issue);
    if sky(swept.world.at).Admits? {
      StartRunMeans(
        swept.world.rows, sky(swept.world.at).runId, issue, status, AgentRole(status).0, sky(swept.world.at).now);
    }
  }

  /** Each run the sweep reached is finished at the moment of its turn. */
  ghost predicate FinishedInTurn(sky: Forecast, rows: Rows, after: Rows, ids: seq<string>, at: nat, i: int) {
    && 0 <= i < |ids| && ids[i] in rows && ids[i] in after
    && var n := at + (|ids| - 1 - i);
       sky(n).Admits? && IsFinishOf(rows[ids[i]], after[ids[i]]) && after[ids[i]].finishedAt == Some(sky(n).now)
  }

  lemma LaterInTurn(
    sky: Forecast, w: World, next: World, after: Rows, ids: seq<string>, newer: seq<string>, oldest: string, i: int)
    requires ids == newer + [oldest] && oldest !in newer && next.at == w.at + 1
    requires FinishedExactly(w.rows, next.rows, [oldest]) && FinishedInTurn(sky, next.rows, after, newer, next.at, i)
    ensures FinishedInTurn(sky, w.rows, after, ids, w.at, i)
  {
    assert newer[i] in newer && ids[i] == newer[i];
  }

  lemma FirstInTurn(sky: Forecast, w: World, ids: seq<string>, after: Rows)
    requires ids != [] && AllOpen(w.rows, ids) && AutoFinish(sky, w, ids[|ids| - 1]).ok
    requires var next, id := AutoFinish(sky, w, ids[|ids| - 1]).world.rows, ids[|ids| - 1];
             id in next && id in after && after[id] == next[id]
    ensures FinishedInTurn(sky, w.rows, after, ids, w.at, |ids| - 1)
  {}

  lemma {:induction false} SweepMoments(sky: Forecast, w: World, ids: seq<string>)
    requires Distinct(ids) && AllOpen(w.rows, ids)
    ensures var swept := Sweep(sky, w, ids);
            forall i :: |ids| - |swept.finished| <= i < |ids| ==>
              FinishedInTurn(sky, w.rows, swept.world.rows, ids, w.at, i)
    decreases |ids|
  {
    if ids != [] {
      var n := |ids| - 1;
      var step := AutoFinish(sky, w, ids[n]);
      if step.ok {
        var newer := NewerRuns(sky, w, step.world, ids);
        var later := Sweep(sky, step.world, newer);
        SweepUnfolds(sky, w, step.world, ids);
        SweepMoments(sky, step.world, newer);
        var left := SweepStops(sky, step.world, newer);
        UntouchedLater(step.world.rows, later.world.rows, newer, left, ids[n]);
        FirstInTurn(sky, w, ids, later.world.rows);
        forall i | |newer| - |later.finished| <= i < |newer|
          ensures FinishedInTurn(sky, w.rows, later.world.rows, ids, w.at, i)
        {
          LaterInTurn(sky, w, step.world, later.world.rows, ids, newer, ids[n], i);
        }
      }
    }
  }

  lemma UntouchedLater(rows: Rows, after: Rows, newer: seq<string>, left: nat, oldest: string)
    requires left <= |newer| && oldest !in newer && oldest in rows && FinishedExactly(rows, after, newer[left..])
    ensures oldest in after && after[oldest] == rows[oldest]
  {}

  /** What a close leaves and reports. */
  lemma CloseExactly(sky: Forecast, list: Listing, w: World, issue: nat)
    requires IsListing(list)
    ensures var closed, key := Close(sky, list, w, false, issue), AsI64(issue);
            && (sky(w.at).Unsupported? ==> closed == ClosedIssue(World(w.rows, w.at + 1), Noop))
            && (sky(w.at).Refuses? ==> closed == ClosedIssue(World(w.rows, w.at + 1), CloseWarning))
            && (sky(w.at).Admits? ==>
                  var swept := CloseRuns(sky, list, World(w.rows, w.at + 1), issue);
                  && closed.world == swept.world
                  && (closed.outcome == CloseWarning <==> !swept.ok)
                  && (closed.outcome == Noop <==> swept.ok && Open(w.rows, key) == {})
                  && (closed.outcome.Closed? ==> closed.outcome.finished == Reversed(Newest(list, w.rows, key))))
    ensures Close(sky, list, w, true, issue) == ClosedIssue(w, Noop)
    ensures forall status :: Transition(sky, list, w, true, issue, status) == Transitioned(w, Skipped)
  {
    var admitted, key := World(w.rows, w.at + 1), AsI64(issue);
    if sky(w.at).Admits? && CloseRuns(sky, list, admitted, issue).ok {
      SweptAll(sky, list, admitted, issue);
      ReversedLength(Newest(list, w.rows, key));
      NewestAreOpen(list, w.rows, key);
    }
  }

  // --- Whole runs. ---

  datatype Event = StatusSet(issue: nat, status: string) | IssueClosed(issue: nat)

  function Apply(sky: Forecast, list: Listing, w: World, e: Event): World {
    match e
    case StatusSet(issue, status) => Transition(sky, list, w, false, issue, status).world
    case IssueClosed(issue) => Close(sky, list, w, false, issue).world
  }

  /** The event met no failure: its run started, or its close swept. */
  ghost predicate Works(sky: Forecast, list: Listing, w: World, e: Event) {
    match e
    case StatusSet(issue, status) => Succeeds(sky, list, w, issue, status)
    case IssueClosed(issue) =>
      sky(w.at).Admits? && CloseRuns(sky, list, World(w.rows, w.at + 1), issue).ok
  }

  function ApplyAll(sky: Forecast, list: Listing, w: World, events: seq<Event>): World
    decreases |events|
  {
    if events == [] then w else ApplyAll(sky, list, Apply(sky, list, w, events[0]), events[1..])
  }

  ghost predicate AllWork(sky: Forecast, list: Listing, w: World, events: seq<Event>)
    decreases |events|
  {
    events == [] || (Works(sky, list, w, events[0]) && AllWork(sky, list, Apply(sky, list, w, events[0]), events[1..]))
  }

  /** Events for the issue stored as `key`. */
  function Touches(events: seq<Event>, key: int): nat {
    if events == [] then 0 else (if AsI64(events[0].issue) == key then 1 else 0) + Touches(events[1..], key)
  }

  /** Open runs after `touches` working events, from `open` of them. */
  function Backlog(open: nat, touches: nat): nat {
    if touches == 0 then open
    else if open <= (MAX_AUTO_RUNS - 1) * touches + 1 then 1
    else open - (MAX_AUTO_RUNS - 1) * touches
  }

  lemma EventKeepsBacklog(sky: Forecast, list: Listing, w: World, e: Event, key: int)
    requires IsListing(list) && Works(sky, list, w, e)
    ensures var before, after := |Open(w.rows, key)|, |Open(Apply(sky, list, w, e).rows, key)|;
            if AsI64(e.issue) == key then after <= LeftOpen(before) + 1 else after == before
  {
    match e
    case StatusSet(issue, status) => TransitionOpensOne(sky, list, w, issue, status);
    case IssueClosed(issue) =>
      var admitted := World(w.rows, w.at + 1);
      CloseRunsFinishes(sky, list, admitted, issue);
      NewestFinished(list, w.rows, CloseRuns(sky, list, admitted, issue).world.rows, AsI64(issue));
  }

  lemma BacklogStep(open: nat, touches: nat, next: nat)
    requires next <= LeftOpen(open) + 1
    ensures Backlog(next, touches) <= Backlog(open, touches + 1)
  {}

  lemma {:induction false} BacklogBounds(sky: Forecast, list: Listing, w: World, events: seq<Event>, key: int)
    requires IsListing(list) && AllWork(sky, list, w, events)
    ensures |Open(ApplyAll(sky, list, w, events).rows, key)| <= Backlog(|Open(w.rows, key)|, Touches(events, key))
    decreases |events|
  {
    if events != [] {
      var next := Apply(sky, list, w, events[0]);
      EventKeepsBacklog(sky, list, w, events[0], key);
      BacklogBounds(sky, list, next, events[1..], key);
      if AsI64(events[0].issue) == key {
        BacklogStep(|Open(w.rows, key)|, Touches(events[1..], key), |Open(next.rows, key)|);
      }
    }
  }

  /** Which events are for the issue stored as `key`. */
  ghost function TouchedAt(events: seq<Event>, key: int): set<nat> {
    set i: nat | i < |events| && AsI64(events[i].issue) == key
  }

  lemma {:induction false} TouchesCounted(events: seq<Event>, key: int)
    ensures |TouchedAt(events, key)| == Touches(events, key)
    decreases |events|
  {
    if events == [] {
      assert TouchedAt(events, key) == {};
    } else {
      var later := events[1..];
      TouchesCounted(later, key);
      assert forall i: nat :: i < |later| ==> later[i] == events[i + 1];
      var moved := set i: nat | i in TouchedAt(later, key) :: i + 1;
      ShiftedSize(TouchedAt(later, key), moved);
      assert TouchedAt(events, key) == moved + (if AsI64(events[0].issue) == key then {0} else {}) by {
        forall i: nat | i in TouchedAt(events, key) && i > 0 ensures i in moved {
          assert i - 1 in TouchedAt(later, key);
        }
      }
    }
  }

  lemma {:induction false} ShiftedSize(s: set<nat>, moved: set<nat>)
    requires moved == set i: nat | i in s :: i + 1
    ensures |moved| == |s|
  {
    if s != {} {
      var i :| i in s;
      var rest := set j: nat | j in s - {i} :: j + 1;
      ShiftedSize(s - {i}, rest);
      forall j | j in moved ensures j in rest + {i + 1} {
        var k :| k in s && j == k + 1;
        assert k == i || k in s - {i};
      }
      assert moved == rest + {i + 1};
    }
  }

  /**
   * Over every run of working events an issue that was touched j times has at
   * most max(1, R - 63 j) open runs, where R is the number it started with.
   */
  lemma BacklogShrinks(sky: Forecast, list: Listing, w: World, events: seq<Event>, key: int)
    requires IsListing(list) && AllWork(sky, list, w, events)
    ensures var before, touches := |Open(w.rows, key)|, |TouchedAt(events, key)|;
            |Open(ApplyAll(sky, list, w, events).rows, key)|
            <= if touches == 0 then before else if before > 63 * touches then before - 63 * touches else 1
  {
    TouchesCounted(events, key);
    BacklogBounds(sky, list, w, events, key);
  }

  /** From at most 64 open runs, every touched issue keeps at most one. */
  lemma SingleRunning(sky: Forecast, list: Listing, w: World, events: seq<Event>, key: int)
    requires IsListing(list) && AllWork(sky, list, w, events)
    requires |Open(w.rows, key)| <= 64 && exists i :: 0 <= i < |events| && AsI64(events[i].issue) == key
    ensures |Open(ApplyAll(sky, list, w, events).rows, key)| <= 1
  {
    var i: nat :| i < |events| && AsI64(events[i].issue) == key;
    assert i in TouchedAt(events, key);
    BacklogShrinks(sky, list, w, events, key);
  }

  // --- A listing exists. ---

  lemma PrependDistinct(id: string, rest: seq<string>)
    requires Distinct(rest) && id !in Elements(rest)
    ensures Distinct([id] + rest) && Elements([id] + rest) == {id} + Elements(rest)
  {
    assert forall i :: 0 <= i < |rest| ==> rest[i] in Elements(rest);
  }

  ghost function ToSeq(ids: set<string>): (s: seq<string>)
    ensures Distinct(s) && Elements(s) == ids
    decreases |ids|
  {
    if ids == {} then []
    else
      var id :| id in ids;
      var rest := ToSeq(ids - {id});
      PrependDistinct(id, rest);
      [id] + rest
  }

  function StartOf(rows: Rows, id: string): int {
    if id in rows then rows[id].startedAt else 0
  }

  function NewerFirst(rows: Rows): (string, string) -> bool {
    (a: string, b: string) => StartOf(rows, a) >= StartOf(rows, b)
  }

  ghost function SortedOpen(rows: Rows, issue: int): seq<string> {
    Sort(NewerFirst(rows), ToSeq(Open(rows, issue)))
  }

  lemma SortedOpenLists(rows: Rows, issue: int)
    ensures ListsOpen(rows, issue, SortedOpen(rows, issue))
  {
    var ids, sorted := ToSeq(Open(rows, issue)), SortedOpen(rows, issue);
    SortIsSort(NewerFirst(rows), ids);
    SortOfKeeps(NewerFirst(rows), ids, sorted);
    forall id ensures id in sorted <==> IsOpen(rows, issue, id) {
      assert id in ids <==> id in Elements(ids);
    }
    forall i, j | 0 <= i < j < |sorted| ensures Older(rows, sorted[j], sorted[i]) {
      assert NewerFirst(rows)(sorted[i], sorted[j]);
      assert sorted[i] in sorted && sorted[j] in sorted;
    }
  }

  /** Some listing meets what every result here asks of one. */
  lemma ListingExists()
    ensures exists list: Listing :: IsListing(list)
  {
    ghost var list: Listing := (rows, issue) => SortedOpen(rows, issue);
    forall rows, issue ensures ListsOpen(rows, issue, list(rows, issue)) {
      SortedOpenLists(rows, issue);
    }
    assert IsListing(list);
  }

  // --- How a backlog builds up. ---

  /** A clock that ticks with every step and never stands behind a start. */
  ghost predicate Ticks(sky: Forecast) {
    forall n: nat :: sky(n).Admits? ==> sky(n).now == n
  }

  ghost predicate StartedBy(rows: Rows, moment: int) {
    forall id :: id in rows ==> rows[id].startedAt <= moment
  }

  function Repeat(e: Event, k: nat): seq<Event> {
    if k == 0 then [] else [e] + Repeat(e, k - 1)
  }

  /** A start at `at` is admitted under a usable id that is not taken. */
  ghost predicate StartsAt(sky: Forecast, taken: set<string>, at: nat) {
    sky(at).Admits? && IsField(sky(at).runId) && sky(at).runId !in taken
  }

  function StartId(sky: Forecast, at: nat): string {
    if sky(at).Admits? then sky(at).runId else []
  }

  /** From `at` on, `k` sweeps that cannot open the store, each followed by a start under a new id. */
  ghost predicate Outage(sky: Forecast, taken: set<string>, at: nat, k: nat)
    decreases k
  {
    k == 0 || (
      && !sky(at).Admits? && StartsAt(sky, taken, at + 1)
      && Outage(sky, taken + {StartId(sky, at + 1)}, at + 2, k - 1))
  }

  predicate CanStart(issue: nat, status: string) {
    0 < issue <= I64_MAX && IsField(status)
  }

  /** One start and nothing finished: one more row, and it is open. */
  ghost predicate OneMore(sky: Forecast, w: World, next: World, issue: nat) {
    && next.at == w.at + 2
    && next.rows.Keys == w.rows.Keys + {StartId(sky, w.at + 1)}
    && |Open(next.rows, issue)| == |Open(w.rows, issue)| + 1
    && (Ticks(sky) && StartedBy(w.rows, w.at) ==> StartedBy(next.rows, next.at))
  }

  /** A transition whose sweep cannot open the store only starts its run. */
  lemma OutageStarts(sky: Forecast, list: Listing, w: World, issue: nat, status: string)
    requires CanStart(issue, status) && !sky(w.at).Admits? && StartsAt(sky, w.rows.Keys, w.at + 1)
    ensures var run := Run(issue, status, AgentRole(status).0, 1, sky(w.at + 1).now, RUNNING, None, 0);
            Apply(sky, list, w, StatusSet(issue, status)) == World(w.rows[StartId(sky, w.at + 1) := run], w.at + 2)
  {}

  lemma OpenWithNewRow(rows: Rows, id: string, run: Run, issue: int)
    requires id !in rows && run.issue == issue && run.status == RUNNING
    ensures Open(rows[id := run], issue) == Open(rows, issue) + {id}
  {
    forall r ensures r in Open(rows[id := run], issue) <==> r in Open(rows, issue) + {id} {
      if r == id {
        assert IsOpen(rows[id := run], issue, r);
      } else {
        assert IsOpen(rows[id := run], issue, r) <==> IsOpen(rows, issue, r);
      }
    }
  }

  lemma NewRowIsOpen(rows: Rows, id: string, run: Run, issue: int)
    requires id !in rows && run.issue == issue && run.status == RUNNING
    ensures rows[id := run].Keys == rows.Keys + {id}
    ensures |Open(rows[id := run], issue)| == |Open(rows, issue)| + 1
  {
    OpenWithNewRow(rows, id, run, issue);
    OnlyOne(Open(rows, issue), id);
  }

  lemma NewRowIsStarted(rows: Rows, id: string, run: Run, moment: int)
    requires StartedBy(rows, moment) && run.startedAt <= moment + 1
    ensures StartedBy(rows[id := run], moment + 2)
  {}

  /** A transition in an outage starts its run next to all the open ones. */
  lemma OutageStep(sky: Forecast, list: Listing, w: World, issue: nat, status: string)
    requires CanStart(issue, status) && !sky(w.at).Admits? && StartsAt(sky, w.rows.Keys, w.at + 1)
    ensures OneMore(sky, w, Apply(sky, list, w, StatusSet(issue, status)), issue)
  {
    OutageStarts(sky, list, w, issue, status);
    var run := Run(issue, status, AgentRole(status).0, 1, sky(w.at + 1).now, RUNNING, None, 0);
    NewRowIsOpen(w.rows, StartId(sky, w.at + 1), run, issue);
    if Ticks(sky) && StartedBy(w.rows, w.at) {
      NewRowIsStarted(w.rows, StartId(sky, w.at + 1), run, w.at);
    }
  }

  // The induction is over any step that does the same, so that it need not look into the transition.

  function Iterate(step: World -> World, w: World, k: nat): World
    decreases k
  {
    if k == 0 then w else Iterate(step, step(w), k - 1)
  }

  lemma ApplyRepeated(sky: Forecast, list: Listing, w: World, e: Event, k: nat)
    requires k > 0
    ensures ApplyAll(sky, list, w, Repeat(e, k)) == ApplyAll(sky, list, Apply(sky, list, w, e), Repeat(e, k - 1))
  {
    assert Repeat(e, k)[1..] == Repeat(e, k - 1);
  }

  lemma {:induction false} ApplyAllIterates(
    sky: Forecast, list: Listing, step: World -> World, w: World, e: Event, k: nat)
    requires forall v {:trigger step(v)} :: step(v) == Apply(sky, list, v, e)
    ensures ApplyAll(sky, list, w, Repeat(e, k)) == Iterate(step, w, k)
    decreases k
  {
    if k > 0 {
      ApplyRepeated(sky, list, w, e, k);
      ApplyAllIterates(sky, list, step, step(w), e, k - 1);
    }
  }

  ghost predicate StartsOnly(sky: Forecast, step: World -> World, issue: nat) {
    forall w: World {:trigger step(w)} ::
      !sky(w.at).Admits? && StartsAt(sky, w.rows.Keys, w.at + 1) ==> OneMore(sky, w, step(w), issue)
  }

  /** The ids of `k` starts of an outage. */
  ghost function StartIds(sky: Forecast, at: nat, k: nat): set<string>
    decreases k
  {
    if k == 0 then {} else {StartId(sky, at + 1)} + StartIds(sky, at + 2, k - 1)
  }

  /** `end` is `w` after `k` starts of an outage: k more rows, all of them open, none from the future. */
  ghost predicate Grown(sky: Forecast, w: World, end: World, k: nat, issue: nat) {
    && end.at == w.at + 2 * k
    && end.rows.Keys == w.rows.Keys + StartIds(sky, w.at, k)
    && |Open(end.rows, issue)| == |Open(w.rows, issue)| + k
    && (Ticks(sky) && StartedBy(w.rows, w.at) ==> StartedBy(end.rows, end.at))
  }

  lemma GrownStep(sky: Forecast, w: World, next: World, end: World, k: nat, issue: nat)
    requires k > 0 && OneMore(sky, w, next, issue) && Grown(sky, next, end, k - 1, issue)
    ensures Grown(sky, w, end, k, issue)
  {}

  lemma NothingGrown(sky: Forecast, w: World, issue: nat)
    ensures Grown(sky, w, w, 0, issue)
  {}

  lemma {:induction false} OutageGrows(sky: Forecast, step: World -> World, w: World, k: nat, issue: nat)
    requires StartsOnly(sky, step, issue) && Outage(sky, w.rows.Keys, w.at, k)
    ensures Grown(sky, w, Iterate(step, w, k), k, issue)
    decreases k
  {
    if k == 0 {
      NothingGrown(sky, w, issue);
    } else {
      var next := step(w);
      assert OneMore(sky, w, next, issue);
      OutageGrows(sky, step, next, k - 1, issue);
      GrownStep(sky, w, next, Iterate(step, w, k), k, issue);
    }
  }

  /** Any backlog can arise: k transitions in an outage leave exactly k more open runs. */
  lemma OutageBuildsBacklog(sky: Forecast, list: Listing, w: World, k: nat, issue: nat, status: string)
    requires CanStart(issue, status) && Outage(sky, w.rows.Keys, w.at, k)
    ensures Grown(sky, w, ApplyAll(sky, list, w, Repeat(StatusSet(issue, status), k)), k, issue)
  {
    var e := StatusSet(issue, status);
    var step := (v: World) => Apply(sky, list, v, e);
    forall v: World | !sky(v.at).Admits? && StartsAt(sky, v.rows.Keys, v.at + 1)
      ensures OneMore(sky, v, step(v), issue)
    {
      OutageStep(sky, list, v, issue, status);
    }
    ApplyAllIterates(sky, list, step, w, e, k);
    OutageGrows(sky, step, w, k, issue);
  }

  // --- A ledger the single-running promise fails for. ---

  /** With every step admitted a sweep finishes all it was given. */
  lemma {:induction false} SweepSucceeds(sky: Forecast, w: World, ids: seq<string>)
    requires Distinct(ids) && AllOpen(w.rows, ids) && Ticks(sky) && StartedBy(w.rows, w.at)
    requires forall n: nat :: n >= w.at ==> sky(n).Admits?
    ensures Sweep(sky, w, ids).ok && Sweep(sky, w, ids).world.at == w.at + |ids|
    decreases |ids|
  {
    if ids != [] {
      var n := |ids| - 1;
      var step := AutoFinish(sky, w, ids[n]);
      OneFinished(sky, w, ids[n]);
      StillOpen(w.rows, step.world.rows, ids[n], ids[..n]);
      SweepSucceeds(sky, step.world, ids[..n]);
    }
  }

  /** From `w` on every step is admitted, and the clock is behind no run. */
  ghost predicate Fair(sky: Forecast, w: World) {
    Ticks(sky) && StartedBy(w.rows, w.at) && forall n: nat :: n >= w.at ==> sky(n).Admits?
  }

  /** A sweep that nothing stops takes one step for the store and one for each of the 64 newest runs. */
  lemma FullSweep(sky: Forecast, list: Listing, w: World, issue: nat)
    requires IsListing(list) && Fair(sky, w) && |Open(w.rows, AsI64(issue))| > MAX_AUTO_RUNS
    ensures var swept := CloseRuns(sky, list, w, issue);
            swept.ok && swept.world.at == w.at + 1 + MAX_AUTO_RUNS && swept.world.rows.Keys == w.rows.Keys
  {
    NewestAreOpen(list, w.rows, AsI64(issue));
    SweepSucceeds(sky, World(w.rows, w.at + 1), Newest(list, w.rows, AsI64(issue)));
    CloseRunsFinishes(sky, list, w, issue);
  }

  /** A transition that nothing stops succeeds, and of more than 64 open runs it leaves all but 63. */
  lemma FairTransition(sky: Forecast, list: Listing, w: World, issue: nat, status: string)
    requires IsListing(list) && Fair(sky, w) && |Open(w.rows, issue)| > MAX_AUTO_RUNS
    requires CanStart(issue, status) && StartsAt(sky, w.rows.Keys, w.at + 1 + MAX_AUTO_RUNS)
    ensures Succeeds(sky, list, w, issue, status)
    ensures |Open(Transition(sky, list, w, false, issue, status).world.rows, issue)|
         == |Open(w.rows, issue)| - (MAX_AUTO_RUNS - 1)
  {
    FullSweep(sky, list, w, issue);
    TransitionOpensOne(sky, list, w, issue, status);
  }

  /** The store cannot be opened at even steps before `until`; all else works, and step n offers the id `ids(n)`. */
  function Storm(ids: nat -> string, until: nat): Forecast {
    (n: nat) => if n < until && n % 2 == 0 then Refuses else Admits(n, ids(n))
  }

  /** Run ids the ledger takes, no two of them the same before step `end`. */
  ghost predicate UsableIds(ids: nat -> string, end: nat) {
    && (forall n: nat :: n < end ==> IsField(ids(n)))
    && (forall m: nat, n: nat :: m < n < end ==> ids(m) != ids(n))
  }

  /** No id offered between `at` and `end` is taken. */
  ghost predicate NoneTaken(ids: nat -> string, taken: set<string>, at: nat, end: nat) {
    forall n: nat :: at < n < end ==> ids(n) !in taken
  }

  lemma StillNoneTaken(ids: nat -> string, taken: set<string>, at: nat, end: nat)
    requires UsableIds(ids, end) && NoneTaken(ids, taken, at, end) && at + 1 < end
    ensures NoneTaken(ids, taken + {ids(at + 1)}, at + 2, end)
  {}

  /** From `at` on, `k` times no admission and then one under the next id. */
  ghost predicate Rages(sky: Forecast, ids: nat -> string, at: nat, k: nat)
    decreases k
  {
    k == 0 || (
      && !sky(at).Admits? && sky(at + 1).Admits? && sky(at + 1).runId == ids(at + 1)
      && Rages(sky, ids, at + 2, k - 1))
  }

  lemma {:induction false} StormRages(ids: nat -> string, until: nat, at: nat, k: nat)
    requires at % 2 == 0 && at + 2 * k <= until
    ensures Rages(Storm(ids, until), ids, at, k)
    decreases k
  {
    if k > 0 {
      StormRages(ids, until, at + 2, k - 1);
    }
  }

  lemma {:induction false} StormIsOutage(
    sky: Forecast, ids: nat -> string, end: nat, taken: set<string>, at: nat, k: nat)
    requires UsableIds(ids, end) && NoneTaken(ids, taken, at, end)
    requires Rages(sky, ids, at, k) && at + 2 * k <= end
    ensures Outage(sky, taken, at, k)
    decreases k
  {
    if k > 0 {
      StillNoneTaken(ids, taken, at, end);
      StormIsOutage(sky, ids, end, taken + {ids(at + 1)}, at + 2, k - 1);
    }
  }

  lemma {:induction false} StormIdsAreEarly(
    sky: Forecast, ids: nat -> string, end: nat, at: nat, k: nat, n: nat)
    requires UsableIds(ids, end) && Rages(sky, ids, at, k) && at + 2 * k <= n < end
    ensures ids(n) !in StartIds(sky, at, k)
    decreases k
  {
    if k > 0 {
      StormIdsAreEarly(sky, ids, end, at + 2, k - 1, n);
    }
  }

  /** The ledger after `k` transitions from nothing whose sweeps could not open the store. */
  function Stormy(ids: nat -> string, list: Listing, k: nat, issue: nat, status: string): World {
    ApplyAll(Storm(ids, 2 * k), list, World(map[], 0), Repeat(StatusSet(issue, status), k))
  }

  lemma GrownFromNothing(sky: Forecast, ids: nat -> string, end: nat, w: World, k: nat, issue: nat)
    requires Grown(sky, World(map[], 0), w, k, issue)
    requires UsableIds(ids, end) && Rages(sky, ids, 0, k) && Ticks(sky)
    ensures w.at == 2 * k && |Open(w.rows, issue)| == k && StartedBy(w.rows, w.at)
    ensures forall n: nat :: 2 * k <= n < end ==> ids(n) !in w.rows
  {
    var start := World(map[], 0);
    assert Open(start.rows, issue) == {} && start.rows.Keys == {};
    forall n: nat | 2 * k <= n < end ensures ids(n) !in w.rows {
      StormIdsAreEarly(sky, ids, end, 0, k, n);
    }
  }

  lemma StormyLedger(ids: nat -> string, list: Listing, k: nat, issue: nat, status: string, end: nat)
    requires CanStart(issue, status) && UsableIds(ids, end) && 2 * k < end
    ensures var w := Stormy(ids, list, k, issue, status);
            && w.at == 2 * k && |Open(w.rows, issue)| == k && StartedBy(w.rows, w.at)
            && forall n: nat :: 2 * k <= n < end ==> ids(n) !in w.rows
  {
    var sky, start := Storm(ids, 2 * k), World(map[], 0);
    assert start.rows.Keys == {};
    StormRages(ids, 2 * k, 0, k);
    StormIsOutage(sky, ids, end, start.rows.Keys, 0, k);
    OutageBuildsBacklog(sky, list, start, k, issue, status);
    GrownFromNothing(sky, ids, end, Stormy(ids, list, k, issue, status), k, issue);
  }

  /**
   * Every backlog of more than 64 runs arises from the empty ledger and
   * outlives a transition that succeeds in everything: of k open runs it
   * leaves k - 63.
   */
  lemma BacklogOutlivesTransition(ids: nat -> string, list: Listing, k: nat, issue: nat, status: string)
    requires IsListing(list) && MAX_AUTO_RUNS < k && CanStart(issue, status)
    requires UsableIds(ids, 2 * k + 2 + MAX_AUTO_RUNS)
    ensures var sky, w := Storm(ids, 2 * k), Stormy(ids, list, k, issue, status);
            && |Open(w.rows, issue)| == k
            && Succeeds(sky, list, w, issue, status)
            && |Open(Transition(sky, list, w, false, issue, status).world.rows, issue)| == k - (MAX_AUTO_RUNS - 1)
  {
    StormyLedger(ids, list, k, issue, status, 2 * k + 2 + MAX_AUTO_RUNS);
    FairTransition(Storm(ids, 2 * k), list, Stormy(ids, list, k, issue, status), issue, status);
  }

  // --- Such ids and such a transition exist. ---

  function RunId(n: nat): string {
    "auto-" + Decimal(n)
  }

  lemma ThreeDigits(n: nat)
    requires n < 1000
    ensures |Decimal(n)| <= 3
  {
    assert |Decimal(n / 10 / 10)| == 1;
    assert |Decimal(n / 10)| <= 2;
  }

  lemma RunIdIsField(n: nat)
    requires n < 1000
    ensures IsField(RunId(n))
  {
    var id := RunId(n);
    ThreeDigits(n);
    assert id[0] == 'a' && id[|id| - 1] == Decimal(n)[|Decimal(n)| - 1];
    TrimFixed(id);
    assert forall i :: 0 <= i < 5 ==> "auto-"[i] in {'a', 'u', 't', 'o', '-'};
    assert forall i :: 5 <= i < |id| ==> IsDigit(id[i]);
    assert !HasControl(id);
  }

  lemma RunIdInjective(a: nat, b: nat)
    ensures RunId(a) == RunId(b) ==> a == b
  {
    assert RunId(a)[5..] == Decimal(a) && RunId(b)[5..] == Decimal(b);
    DecimalInjective(a, b);
  }

  lemma InProgressIsField()
    ensures IsField("In Progress")
  {
    TrimFixed("In Progress");
    assert forall i :: 0 <= i < |"In Progress"| ==> "In Progress"[i] in {'I', 'n', ' ', 'P', 'r', 'o', 'g', 'e', 's'};
  }

  lemma RunIdsAreUsable(ids: nat -> string)
    requires forall n: nat :: ids(n) == RunId(n)
    ensures UsableIds(ids, 1000)
  {
    forall n: nat | n < 1000 ensures IsField(ids(n)) {
      RunIdIsField(n);
    }
    forall m: nat, n: nat | m < n < 1000 ensures ids(m) != ids(n) {
      RunIdInjective(m, n);
    }
  }

  /** A transition succeeds in everything and two runs of its issue are open. */
  lemma TwoRunsStayOpen(list: Listing)
    requires IsListing(list)
    ensures exists sky: Forecast, w: World ::
              && Succeeds(sky, list, w, 1, "In Progress")
              && |Open(Transition(sky, list, w, false, 1, "In Progress").world.rows, 1)| == 2
  {
    var ids := (n: nat) => RunId(n);
    var k := MAX_AUTO_RUNS + 1;
    RunIdsAreUsable(ids);
    InProgressIsField();
    BacklogOutlivesTransition(ids, list, k, 1, "In Progress");
  }
}
