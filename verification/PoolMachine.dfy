/** The pool as a concurrent system: a scheduling round is a sequence of sub-steps, and submissions, user
    commands and workers run between them.  Each event is one step on the locked list or on one locked
    task; a round's count and its entry check go over several tasks, locked one after another, and may
    have seen downloads that have ended meanwhile (RoundStale). */
module PoolMachine {
  import opened PoolSpec
  import opened PoolRound
  import opened Wrappers

  type TaskId = nat

  datatype Phase =
    | Rest
    | Preempting(k: nat)                      // the list is locked; slot k is next
    | Unlocked                                // pre-emption done, snapshot not yet taken
    | Listing(list: seq<TaskId>, k: nat)      // about to count downloads for list[k]
    | Counted(list: seq<TaskId>, k: nat)      // a slot was free
    | Checked(list: seq<TaskId>, k: nat)      // and no download of the entry of list[k]

  /** `t` holds every task ever created, in the list or not. */
  datatype State = State(tasks: seq<TaskId>, t: Table<TaskId>, phase: Phase)

  /** Writes to the fields of a single task. */
  datatype TaskWrite =
    | UserStatus(status: DownloadStatus)      // pause or cancel through update_task_by_id
    | Resume
    | TokenGiven
    | TokenTaken
    | WorkerPaused
    | WorkerCompleted
    | WorkerFailed
    | RetriesCleared                          // the origin answered 416

  datatype Event =
    | Create(id: TaskId, info: TaskInfo)
    | Write(id: TaskId, w: TaskWrite)
    | Replace(id: TaskId)                     // first half of submit
    | Add(id: TaskId)                         // second half of submit, whatever its check saw
    | Remove(ids: set<string>)                // retain after a terminal status, or remove_tasks_by_ids
    | RoundStart
    | RoundPreempt
    | RoundSnapshot
    | RoundCount
    | RoundCheck
    | RoundClaim
    | RoundStale                              // the count, or the check, still saw a download that has ended

  function Applied(info: TaskInfo, w: TaskWrite): TaskInfo {
    match w
    case UserStatus(status) => Updated(info, status)
    case Resume => info.(status := Idle)
    case TokenGiven => info.(hasToken := true)
    case TokenTaken => info.(hasToken := false)
    case WorkerPaused => if info.status != Cancelled then info.(status := Paused) else info
    case WorkerCompleted => info.(status := Completed)
    case WorkerFailed => FailedAttempt(info)
    case RetriesCleared => info.(retryTimes := 0)
  }

  predicate WellFormed(s: State) {
    && Covers(s.tasks, s.t)
    && (s.phase.Listing? || s.phase.Counted? || s.phase.Checked? ==> Covers(s.phase.list, s.t))
    && (s.phase.Counted? || s.phase.Checked? ==> s.phase.k < |s.phase.list|)
  }

  /** Only the claim step writes Downloading; a submitted task is not already Downloading
      outside the pool; the list is locked while the round sorts and pre-empts. */
  predicate Enabled(s: State, e: Event) {
    match e
    case Create(id, info) => id !in s.t && info.status == Idle
    case Write(id, w) => id in s.t && (w.UserStatus? ==> w.status == Paused || w.status == Cancelled)
    case Replace(id) => id in s.t && !s.phase.Preempting?
    case Add(id) => id in s.t && !s.phase.Preempting? && (s.t[id].status != Downloading || id in s.tasks)
    case Remove(_) => !s.phase.Preempting?
    case RoundStart => s.phase.Rest?
    case RoundPreempt => s.phase.Preempting?
    case RoundSnapshot => s.phase.Unlocked?
    case RoundCount => s.phase.Listing?
    case RoundCheck => s.phase.Counted?
    case RoundClaim => s.phase.Checked?
    case RoundStale => s.phase.Listing? || s.phase.Counted?
  }

  /** The claim of `id`, whatever was checked before it. */
  function ClaimOf(s: State, id: TaskId): State
    requires id in s.t
  {
    if s.t[id].Claimable() then s.(t := s.t[id := Claimed(s.t[id])]) else s
  }

  function Next(s: State, e: Event, poolSize: nat): (r: State)
    requires WellFormed(s) && Enabled(s, e)
    ensures WellFormed(r)
  {
    match e
    case Create(id, info) => s.(t := s.t[id := info])
    case Write(id, w) => s.(t := s.t[id := Applied(s.t[id], w)])
    case Replace(id) => s.(tasks := SubmitReplace(s.tasks, s.t, id))
    case Add(id) => s.(tasks := s.tasks + [id])
    case Remove(ids) => s.(tasks := WithoutIds(s.tasks, s.t, ids))
    case RoundStart =>
      if s.tasks == [] then s
      else s.(tasks := SortByPriority(s.tasks, s.t), phase := Preempting(poolSize))
    case RoundPreempt =>
      var k := s.phase.k;
      if k >= |s.tasks| then s.(phase := Unlocked)
      else s.(t := PreemptOne(s.t, s.tasks[k]), phase := Preempting(k + 1))
    case RoundSnapshot => s.(phase := Listing(s.tasks, 0))
    case RoundCount =>
      if s.phase.k >= |s.phase.list| || |DownloadingSlots(s.tasks, s.t)| >= poolSize then s.(phase := Rest)
      else s.(phase := Counted(s.phase.list, s.phase.k))
    case RoundCheck =>
      if EntryActive(s.tasks, s.t, s.t[s.phase.list[s.phase.k]].entry)
      then s.(phase := Listing(s.phase.list, s.phase.k + 1))
      else s.(phase := Checked(s.phase.list, s.phase.k))
    case RoundClaim =>
      ClaimOf(s, s.phase.list[s.phase.k]).(phase := Listing(s.phase.list, s.phase.k + 1))
    case RoundStale => s.(phase := if s.phase.Counted? then Listing(s.phase.list, s.phase.k + 1) else Rest)
  }

  // ---------------------------------------------------------------------------------------
  // Safety over all interleavings

  ghost predicate Safe(s: State, poolSize: nat)
    requires WellFormed(s)
  {
    |DownloadingTasks(s.tasks, s.t)| <= poolSize && EntriesDistinct(s.tasks, s.t)
  }

  /** Safety together with what each phase of the round has learnt and may still rely on. */
  ghost predicate Inv(s: State, poolSize: nat) {
    && WellFormed(s)
    && Safe(s, poolSize)
    && (s.phase.Counted? || s.phase.Checked? ==> |DownloadingTasks(s.tasks, s.t)| < poolSize)
    && (s.phase.Checked? ==> !EntryActive(s.tasks, s.t, s.t[s.phase.list[s.phase.k]].entry))
  }

  /** Fewer downloads with the same entries threaten nothing. */
  lemma FewerDownloadsStaySafe(s: State, r: State, poolSize: nat)
    requires Inv(s, poolSize) && WellFormed(r) && r.phase == s.phase
    requires s.t.Keys <= r.t.Keys && forall id | id in s.t :: r.t[id].entry == s.t[id].entry
    requires forall i | 0 <= i < |r.tasks| :: r.t[r.tasks[i]].status == Downloading ==>
               r.tasks[i] in s.t && r.tasks[i] in DownloadingTasks(s.tasks, s.t)
    ensures Inv(r, poolSize)
  {
    SmallerSet(DownloadingTasks(r.tasks, r.t), DownloadingTasks(s.tasks, s.t));
    assert DownloadingTasks(r.tasks, r.t) <= DownloadingTasks(s.tasks, s.t);
  }

  lemma {:induction false} WithoutEntryMembers(tasks: seq<TaskId>, t: Table<TaskId>, e: string)
    requires Covers(tasks, t)
    ensures forall x | x in WithoutEntry(tasks, t, e) :: x in tasks
  {
    if tasks != [] { WithoutEntryMembers(tasks[1..], t, e); }
  }

  lemma {:induction false} WithoutIdsMembers(tasks: seq<TaskId>, t: Table<TaskId>, ids: set<string>)
    requires Covers(tasks, t)
    ensures forall x | x in WithoutIds(tasks, t, ids) :: x in tasks
  {
    if tasks != [] { WithoutIdsMembers(tasks[1..], t, ids); }
  }

  lemma WriteStartsNoDownload(info: TaskInfo, w: TaskWrite)
    requires w.UserStatus? ==> w.status == Paused || w.status == Cancelled
    ensures Applied(info, w).entry == info.entry
    ensures Applied(info, w).status == Downloading ==> info.status == Downloading
  {
  }

  /** What a write may do to a task: never start a download, never touch what it is about; only a resumption, a
      finished file or a user's pause brings a cancelled task back; only a failure uses up a retry. */
  lemma WritesAreLimited(info: TaskInfo, w: TaskWrite)
    ensures var r := Applied(info, w);
            && r.id == info.id && r.entry == info.entry && r.priority == info.priority
            && (w.UserStatus? ==> r.status == w.status)
            && (w.Resume? ==> r.status == Idle)
            && (w.WorkerCompleted? ==> r.status == Completed)
            && (w.WorkerPaused? && info.status != Cancelled ==> r.status == Paused)
            && (w.WorkerFailed? && info.status != Cancelled ==> r.status == if info.retryTimes > 0 then Idle else Failed)
            && (w.TokenGiven? || w.TokenTaken? || w.RetriesCleared? ==> r.status == info.status)
            && (info.status == Cancelled && !w.UserStatus? && !w.Resume? && !w.WorkerCompleted? ==> r.status == Cancelled)
            && r.retryTimes == (if w.RetriesCleared? then 0
                                else if w.WorkerFailed? && info.status != Cancelled && info.retryTimes > 0
                                  then info.retryTimes - 1 else info.retryTimes)
            && r.hasToken == (w.TokenGiven? || (info.hasToken && !w.TokenTaken? &&
                              !(w.UserStatus? && (w.status == Paused || w.status == Cancelled))))
  {
  }

  /** Creating a task and writing its fields touch that task alone, and neither list nor round. */
  lemma WritesTouchOneTask(s: State, e: Event, poolSize: nat)
    requires WellFormed(s) && Enabled(s, e) && (e.Create? || e.Write?)
    ensures var r := Next(s, e, poolSize);
            && r.tasks == s.tasks && r.phase == s.phase && r.t.Keys == s.t.Keys + {e.id}
            && r.t[e.id] == (if e.Create? then e.info else Applied(s.t[e.id], e.w))
            && forall id | id in s.t && id != e.id :: r.t[id] == s.t[id]
  {
  }

  lemma OtherEventsKeepInv(s: State, e: Event, poolSize: nat)
    requires Inv(s, poolSize) && Enabled(s, e)
    requires e.Create? || e.Write? || e.Replace? || e.Add? || e.Remove?
    ensures Inv(Next(s, e, poolSize), poolSize)
  {
    var r := Next(s, e, poolSize);
    match e {
      case Create(id, info) =>
      case Write(id, w) => WriteStartsNoDownload(s.t[id], w);
      case Replace(id) => WithoutEntryMembers(s.tasks, s.t, s.t[id].entry);
      case Add(id) =>
      case Remove(ids) => WithoutIdsMembers(s.tasks, s.t, ids);
    }
    forall i | 0 <= i < |r.tasks| && r.t[r.tasks[i]].status == Downloading
      ensures r.tasks[i] in s.t && r.tasks[i] in DownloadingTasks(s.tasks, s.t)
    {
      var x := r.tasks[i];
      if e.Add? && i == |s.tasks| {
        assert x == e.id;
      } else if !e.Replace? && !e.Remove? {
        assert x == s.tasks[i];
      }
      assert x in s.tasks;
    }
    FewerDownloadsStaySafe(s, r, poolSize);
  }

  lemma ClaimStepKeepsInv(s: State, poolSize: nat)
    requires Inv(s, poolSize) && s.phase.Checked?
    ensures Inv(Next(s, RoundClaim, poolSize), poolSize)
  {
    hide SortByPriority, PreemptOne, SubmitReplace, WithoutIds, DownloadingSlots, Applied;
    var id := s.phase.list[s.phase.k];
    var r := Next(s, RoundClaim, poolSize);
    var before, after := DownloadingTasks(s.tasks, s.t), DownloadingTasks(r.tasks, r.t);
    assert after <= before + {id};
    SmallerSet(after, before + {id});
  }

  lemma SortStepKeepsInv(s: State, poolSize: nat)
    requires Inv(s, poolSize) && s.phase.Rest?
    ensures Inv(Next(s, RoundStart, poolSize), poolSize)
  {
    var sorted := SortByPriority(s.tasks, s.t);
    SortedIsSubset(s.tasks, s.t);
    FewerDownloadsStaySafe(s, s.(tasks := sorted), poolSize);
  }

  lemma PreemptStepKeepsInv(s: State, poolSize: nat)
    requires Inv(s, poolSize) && s.phase.Preempting?
    ensures Inv(Next(s, RoundPreempt, poolSize), poolSize)
  {
    if s.phase.k < |s.tasks| {
      var r := s.(t := PreemptOne(s.t, s.tasks[s.phase.k]));
      FewerDownloadsStaySafe(s, r, poolSize);
    }
  }

  /** Every event preserves the invariant. */
  lemma NextKeepsInv(s: State, e: Event, poolSize: nat)
    requires Inv(s, poolSize) && Enabled(s, e)
    ensures Inv(Next(s, e, poolSize), poolSize)
  {
    match e {
      case RoundStart => SortStepKeepsInv(s, poolSize);
      case RoundPreempt => PreemptStepKeepsInv(s, poolSize);
      case RoundSnapshot =>
      case RoundCount => DownloadingTasksAtMostSlots(s.tasks, s.t);
      case RoundCheck =>
      case RoundClaim => ClaimStepKeepsInv(s, poolSize);
      case RoundStale =>
      case _ => OtherEventsKeepInv(s, e, poolSize);
    }
  }

  const Initial: State := State([], map[], Rest)

  ghost predicate ValidRun(s: State, run: seq<Event>, poolSize: nat)
    requires WellFormed(s)
    decreases |run|
  {
    run == [] || (Enabled(s, run[0]) && ValidRun(Next(s, run[0], poolSize), run[1..], poolSize))
  }

  ghost function After(s: State, run: seq<Event>, poolSize: nat): (r: State)
    requires WellFormed(s) && ValidRun(s, run, poolSize)
    ensures WellFormed(r)
    decreases |run|
  {
    if run == [] then s else After(Next(s, run[0], poolSize), run[1..], poolSize)
  }

  lemma {:induction false} RunKeepsInv(s: State, run: seq<Event>, poolSize: nat)
    requires Inv(s, poolSize) && ValidRun(s, run, poolSize)
    ensures Inv(After(s, run, poolSize), poolSize)
    decreases |run|
  {
    if run != [] {
      NextKeepsInv(s, run[0], poolSize);
      RunKeepsInv(Next(s, run[0], poolSize), run[1..], poolSize);
    }
  }

  /** In every reachable state at most `poolSize` pool tasks are Downloading, with pairwise
      distinct entries, even when racing submissions put duplicates into the list. */
  lemma EveryRunIsSafe(run: seq<Event>, poolSize: nat)
    requires ValidRun(Initial, run, poolSize)
    ensures Safe(After(Initial, run, poolSize), poolSize)
  {
    assert DownloadingTasks(Initial.tasks, Initial.t) == {};
    RunKeepsInv(Initial, run, poolSize);
  }

  // ---------------------------------------------------------------------------------------
  // Where the two assumptions come from

  lemma AddedDownloads(tasks: seq<TaskId>, t: Table<TaskId>, id: TaskId)
    requires Covers(tasks, t) && id in t
    ensures DownloadingTasks(tasks + [id], t) ==
            DownloadingTasks(tasks, t) + (if t[id].status == Downloading then {id} else {})
  {
    var r := tasks + [id];
    assert forall i | 0 <= i < |tasks| :: r[i] == tasks[i];
    assert r[|tasks|] == id;
  }

  lemma AddedEntries(tasks: seq<TaskId>, t: Table<TaskId>, id: TaskId)
    requires Covers(tasks, t) && id in t && EntriesDistinct(tasks, t)
    ensures EntriesDistinct(tasks + [id], t) <==>
            (t[id].status != Downloading || id in tasks || !EntryActive(tasks, t, t[id].entry))
  {
    var r := tasks + [id];
    assert forall i | 0 <= i < |tasks| :: r[i] == tasks[i];
    assert r[|tasks|] == id;
    if t[id].status == Downloading && id !in tasks && EntryActive(tasks, t, t[id].entry) {
      var i :| 0 <= i < |tasks| && t[tasks[i]].status == Downloading && t[tasks[i]].entry == t[id].entry;
      assert r[i] != r[|tasks|];
    }
  }

  /** Adding any task keeps the pool safe exactly when it brings no Downloading task in from
      outside, or there is a free slot and its entry is not downloading. */
  lemma AddIsSafeExactly(s: State, id: TaskId, poolSize: nat)
    requires WellFormed(s) && Safe(s, poolSize) && id in s.t
    ensures Safe(s.(tasks := s.tasks + [id]), poolSize) <==>
            || s.t[id].status != Downloading
            || id in s.tasks
            || (|DownloadingTasks(s.tasks, s.t)| < poolSize && !EntryActive(s.tasks, s.t, s.t[id].entry))
  {
    AddedDownloads(s.tasks, s.t, id);
    AddedEntries(s.tasks, s.t, id);
    var before := DownloadingTasks(s.tasks, s.t);
    if s.t[id].status == Downloading {
      if id in s.tasks {
        assert before + {id} == before;
      } else {
        assert id !in before;
        assert |before + {id}| == |before| + 1;
      }
    } else {
      assert before + {} == before;
    }
  }

  lemma ClaimedDownloads(tasks: seq<TaskId>, t: Table<TaskId>, id: TaskId)
    requires Covers(tasks, t) && id in tasks && t[id].Claimable()
    ensures var r := t[id := Claimed(t[id])];
            && DownloadingTasks(tasks, r) == DownloadingTasks(tasks, t) + {id}
            && |DownloadingTasks(tasks, r)| == |DownloadingTasks(tasks, t)| + 1
  {
    var i :| 0 <= i < |tasks| && tasks[i] == id;
    assert id !in DownloadingTasks(tasks, t);
    assert DownloadingTasks(tasks, t[id := Claimed(t[id])]) == DownloadingTasks(tasks, t) + {id};
  }

  lemma ClaimedEntries(tasks: seq<TaskId>, t: Table<TaskId>, id: TaskId)
    requires Covers(tasks, t) && id in tasks && t[id].Claimable() && EntriesDistinct(tasks, t)
    ensures EntriesDistinct(tasks, t[id := Claimed(t[id])]) <==> !EntryActive(tasks, t, t[id].entry)
  {
    var r := t[id := Claimed(t[id])];
    var j :| 0 <= j < |tasks| && tasks[j] == id;
    if EntryActive(tasks, t, t[id].entry) {
      var i :| 0 <= i < |tasks| && t[tasks[i]].status == Downloading && t[tasks[i]].entry == t[id].entry;
      assert r[tasks[i]].status == Downloading && r[tasks[j]].status == Downloading && tasks[i] != tasks[j];
    }
  }

  /** A claim, however stale its checks, keeps a safe pool safe exactly when the task cannot be claimed,
      or has left the list, or a place is free and its entry is not downloading. */
  lemma ClaimIsSafeExactly(s: State, id: TaskId, poolSize: nat)
    requires WellFormed(s) && Safe(s, poolSize) && id in s.t
    ensures Safe(ClaimOf(s, id), poolSize) <==>
            || (s.t[id].status != Idle && s.t[id].status != Paused)
            || id !in s.tasks
            || (|DownloadingTasks(s.tasks, s.t)| < poolSize && !EntryActive(s.tasks, s.t, s.t[id].entry))
  {
    if s.t[id].Claimable() {
      if id in s.tasks {
        ClaimedDownloads(s.tasks, s.t, id);
        ClaimedEntries(s.tasks, s.t, id);
      } else {
        assert DownloadingTasks(s.tasks, ClaimOf(s, id).t) == DownloadingTasks(s.tasks, s.t);
      }
    }
  }

  /** Two rounds that overlap can both pass the checks for the last free slot: round A holds
      task 0 of an older snapshot, round B task 1 of a newer one. */
  lemma OverlappingRoundsOvercommit() returns (s: State, phaseB: Phase)
    ensures s.phase.Checked? && Inv(s, 1) && Inv(s.(phase := phaseB), 1) && phaseB.Checked?
    ensures var claimedA := Next(s, RoundClaim, 1);
            WellFormed(claimedA.(phase := phaseB))
            && !Safe(Next(claimedA.(phase := phaseB), RoundClaim, 1), 1)
  {
    hide SortByPriority, PreemptOne, SubmitReplace, WithoutIds, Applied;
    var t := map[0 := TaskInfo("0", "a", 1, Idle, 0, false), 1 := TaskInfo("1", "b", 2, Idle, 0, false)];
    s := State([1, 0], t, Checked([0], 0));
    phaseB := Checked([1, 0], 0);
    assert DownloadingTasks(s.tasks, s.t) == {};
    var claimedA := Next(s, RoundClaim, 1);
    var both := Next(claimedA.(phase := phaseB), RoundClaim, 1);
    assert both.tasks[0] == 1 && both.tasks[1] == 0;
    assert DownloadingTasks(both.tasks, both.t) == {0, 1};
  }

  // ---------------------------------------------------------------------------------------
  // An undisturbed submission

  /** The two halves of a submission, run back to back, are the atomic one about which PoolRound reasons. */
  lemma UndisturbedSubmitIsAtomic(s: State, id: TaskId, poolSize: nat)
    requires WellFormed(s) && Enabled(s, Replace(id)) && Enabled(s, Add(id))
    requires s.t[id].status != Downloading
    ensures var r := Next(s, Replace(id), poolSize);
            s.(tasks := Submit(s.tasks, s.t, id)) ==
            if exists i :: 0 <= i < |r.tasks| && s.t[r.tasks[i]].entry == s.t[id].entry then r
            else Next(r, Add(id), poolSize)
  {
  }

  /** A removal takes exactly the tasks with those ids out of the list, and touches none of them. */
  lemma {:induction false} RemovalTakesIds(s: State, ids: set<string>, poolSize: nat)
    requires WellFormed(s) && Enabled(s, Remove(ids))
    ensures var r := Next(s, Remove(ids), poolSize);
            r.t == s.t && r.phase == s.phase && forall id :: id in r.tasks <==> id in s.tasks && s.t[id].id !in ids
  {
    WithoutIdsLists(s.tasks, s.t, ids);
  }

  lemma {:induction false} WithoutIdsLists(tasks: seq<TaskId>, t: Table<TaskId>, ids: set<string>)
    requires Covers(tasks, t)
    ensures forall id :: id in WithoutIds(tasks, t, ids) <==> id in tasks && t[id].id !in ids
  {
    if tasks != [] {
      WithoutIdsLists(tasks[1..], t, ids);
      assert tasks == [tasks[0]] + tasks[1..];
    }
  }

  // ---------------------------------------------------------------------------------------
  // An undisturbed round

  function RoundEvent(phase: Phase): Event {
    match phase
    case Rest => RoundStart
    case Preempting(_) => RoundPreempt
    case Unlocked => RoundSnapshot
    case Listing(_, _) => RoundCount
    case Counted(_, _) => RoundCheck
    case Checked(_, _) => RoundClaim
  }

  /** Run the sub-steps of a started round to the end with nothing in between. */
  ghost function Finish(s: State, poolSize: nat): (r: State)
    requires WellFormed(s)
    decreases if s.phase.Preempting? then 2 else if s.phase.Unlocked? then 1 else 0,
              match s.phase
              case Preempting(k) => if k <= |s.tasks| then |s.tasks| - k else 0
              case Listing(list, k) => if k <= |list| then |list| - k else 0
              case Counted(list, k) => |list| - k
              case Checked(list, k) => |list| - k
              case _ => 0,
              match s.phase case Listing(_, _) => 2 case Counted(_, _) => 1 case _ => 0
  {
    if s.phase.Rest? then s else Finish(Next(s, RoundEvent(s.phase), poolSize), poolSize)
  }

  /** The three sub-steps at one position are one iteration of the atomic claim loop. */
  lemma ClaimIteration(tasks: seq<TaskId>, t: Table<TaskId>, list: seq<TaskId>, poolSize: nat, k: nat)
    requires Covers(tasks, t) && Covers(list, t) && k < |list|
    requires |DownloadingSlots(tasks, t)| < poolSize
    ensures Finish(State(tasks, t, Listing(list, k)), poolSize) ==
            Finish(State(tasks, ClaimOne(tasks, t, list[k]), Listing(list, k + 1)), poolSize)
  {
    var s := State(tasks, t, Listing(list, k));
    var s1 := Next(s, RoundCount, poolSize);
    var s2 := Next(s1, RoundCheck, poolSize);
    assert Finish(s, poolSize) == Finish(s1, poolSize);
    assert Finish(s1, poolSize) == Finish(s2, poolSize);
    if s2.phase.Checked? {
      assert Finish(s2, poolSize) == Finish(Next(s2, RoundClaim, poolSize), poolSize);
    }
  }

  lemma StoppedClaiming(tasks: seq<TaskId>, t: Table<TaskId>, list: seq<TaskId>, poolSize: nat, k: nat)
    requires Covers(tasks, t) && Covers(list, t)
    requires k >= |list| || |DownloadingSlots(tasks, t)| >= poolSize
    ensures Finish(State(tasks, t, Listing(list, k)), poolSize) == State(tasks, t, Rest)
  {
    var s := State(tasks, t, Listing(list, k));
    assert Finish(s, poolSize) == Finish(Next(s, RoundCount, poolSize), poolSize);
  }

  lemma {:induction false} ClaimingSubSteps(tasks: seq<TaskId>, t: Table<TaskId>, poolSize: nat, k: nat)
    requires Covers(tasks, t)
    ensures Finish(State(tasks, t, Listing(tasks, k)), poolSize) ==
            State(tasks, ClaimFrom(tasks, tasks, t, poolSize, k), Rest)
    decreases |tasks| - k
  {
    if k >= |tasks| || |DownloadingSlots(tasks, t)| >= poolSize {
      StoppedClaiming(tasks, t, tasks, poolSize, k);
    } else {
      ClaimIteration(tasks, t, tasks, poolSize, k);
      ClaimingSubSteps(tasks, ClaimOne(tasks, t, tasks[k]), poolSize, k + 1);
    }
  }

  lemma {:induction false} PreemptingSubSteps(s: State, poolSize: nat)
    requires WellFormed(s) && s.phase.Preempting?
    ensures Finish(s, poolSize) ==
            Finish(State(s.tasks, PreemptFrom(s.tasks, s.t, s.phase.k), Listing(s.tasks, 0)), poolSize)
    decreases if s.phase.k <= |s.tasks| then |s.tasks| - s.phase.k else 0
  {
    hide SortByPriority, PreemptOne, SubmitReplace, WithoutIds, DownloadingSlots, Applied, ClaimOf, EntryActive;
    var s1 := Next(s, RoundPreempt, poolSize);
    if s.phase.k < |s.tasks| {
      PreemptingSubSteps(s1, poolSize);
    } else {
      assert Finish(s1, poolSize) == Finish(Next(s1, RoundSnapshot, poolSize), poolSize);
    }
  }

  /** The sub-steps, run back to back, are the atomic round about which PoolRound reasons. */
  lemma UndisturbedRoundIsAtomic(s: State, poolSize: nat)
    requires WellFormed(s) && s.phase.Rest?
    ensures Finish(Next(s, RoundStart, poolSize), poolSize) ==
            State(SortByPriority(s.tasks, s.t), RoundTable(s.tasks, s.t, poolSize), Rest)
  {
    if s.tasks != [] {
      var s1 := Next(s, RoundStart, poolSize);
      PreemptingSubSteps(s1, poolSize);
      ClaimingSubSteps(s1.tasks, PreemptFrom(s1.tasks, s1.t, poolSize), poolSize, 0);
    }
  }
}
