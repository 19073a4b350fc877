/** The download pool as values: an ordered list of task handles, and a table giving the
    current fields of each task.  A handle stands for the source's `Arc<Mutex<DownloadTask>>`,
    so one task may sit in several slots of the list. */
module PoolSpec {

  datatype DownloadStatus = Idle | Downloading | Paused | Completed | Cancelled | Failed

  /** `entry` is the cache entry that `CacheKey::for_task` derives from the task. */
  datatype TaskInfo = TaskInfo(id: string, entry: string, priority: int,
                               status: DownloadStatus, retryTimes: int, hasToken: bool)
  {
    predicate Claimable() { status == Idle || status == Paused }
  }

  type Table<Id(==)> = map<Id, TaskInfo>

  predicate Covers<Id>(tasks: seq<Id>, t: Table<Id>) {
    forall i | 0 <= i < |tasks| :: tasks[i] in t
  }

  ghost predicate NoRepeats<Id>(tasks: seq<Id>) {
    forall i, j | 0 <= i < j < |tasks| :: tasks[i] != tasks[j]
  }

  // ---------------------------------------------------------------------------------------
  // Queries

  /** Slots of the list whose task is Downloading; their number is `downloading_tasks().len()`. */
  function DownloadingSlots<Id>(tasks: seq<Id>, t: Table<Id>): set<nat>
    requires Covers(tasks, t)
  {
    set i: nat | i < |tasks| && t[tasks[i]].status == Downloading
  }

  /** Some task of the list is Downloading under this entry. */
  predicate EntryActive<Id>(tasks: seq<Id>, t: Table<Id>, entry: string)
    requires Covers(tasks, t)
  {
    exists i | 0 <= i < |tasks| :: t[tasks[i]].status == Downloading && t[tasks[i]].entry == entry
  }

  predicate EntryPresent<Id>(tasks: seq<Id>, t: Table<Id>, entry: string)
    requires Covers(tasks, t)
  {
    exists i | 0 <= i < |tasks| :: t[tasks[i]].entry == entry
  }

  // ---------------------------------------------------------------------------------------
  // The scheduling round

  /** Insert `x`, which came before all of `s`, into the sorted `s`. */
  function InsertByPriority<Id>(x: Id, s: seq<Id>, t: Table<Id>): (r: seq<Id>)
    requires x in t && Covers(s, t)
    ensures Covers(r, t)
  {
    if s == [] || t[s[0]].priority <= t[x].priority then [x] + s
    else [s[0]] + InsertByPriority(x, s[1..], t)
  }

  /** A stable sort by descending priority; see StableSortIsUnique for why any other
      stable sort gives the same list. */
  function SortByPriority<Id>(s: seq<Id>, t: Table<Id>): (r: seq<Id>)
    requires Covers(s, t)
    ensures Covers(r, t)
  {
    if s == [] then [] else InsertByPriority(s[0], SortByPriority(s[1..], t), t)
  }

  /** Pause one task if it is Downloading, taking its cancellation token. */
  function PreemptOne<Id>(t: Table<Id>, id: Id): (r: Table<Id>)
    requires id in t
    ensures r.Keys == t.Keys
  {
    if t[id].status == Downloading then t[id := t[id].(status := Paused, hasToken := false)] else t
  }

  /** Pause every Downloading task at slot `k` or later. */
  function PreemptFrom<Id>(tasks: seq<Id>, t: Table<Id>, k: nat): (r: Table<Id>)
    requires Covers(tasks, t)
    ensures r.Keys == t.Keys
    decreases |tasks| - k
  {
    if k >= |tasks| then t else PreemptFrom(tasks, PreemptOne(t, tasks[k]), k + 1)
  }

  function Claimed(info: TaskInfo): TaskInfo {
    info.(status := Downloading,
          retryTimes := if info.retryTimes == 0 && info.status == Idle then 3 else info.retryTimes)
  }

  /** One iteration of the claim loop after the capacity check. */
  function ClaimOne<Id>(tasks: seq<Id>, t: Table<Id>, id: Id): (r: Table<Id>)
    requires Covers(tasks, t) && id in t
    ensures r.Keys == t.Keys
  {
    if EntryActive(tasks, t, t[id].entry) || !t[id].Claimable() then t else t[id := Claimed(t[id])]
  }

  /** The claim loop over the snapshot `list`, from position `k`. */
  function ClaimFrom<Id>(tasks: seq<Id>, list: seq<Id>, t: Table<Id>, poolSize: nat, k: nat): (r: Table<Id>)
    requires Covers(tasks, t) && Covers(list, t)
    ensures r.Keys == t.Keys
    decreases |list| - k
  {
    if k >= |list| || |DownloadingSlots(tasks, t)| >= poolSize then t
    else ClaimFrom(tasks, list, ClaimOne(tasks, t, list[k]), poolSize, k + 1)
  }

  /** A whole round with nothing else running: sort, pre-empt the overflow, claim. */
  function RoundTable<Id>(tasks: seq<Id>, t: Table<Id>, poolSize: nat): (r: Table<Id>)
    requires Covers(tasks, t)
    ensures r.Keys == t.Keys
  {
    var sorted := SortByPriority(tasks, t);
    ClaimFrom(sorted, sorted, PreemptFrom(sorted, t, poolSize), poolSize, 0)
  }

  // ---------------------------------------------------------------------------------------
  // Submission, removal and the worker's verdicts

  function WithoutEntry<Id>(tasks: seq<Id>, t: Table<Id>, entry: string): (r: seq<Id>)
    requires Covers(tasks, t)
    ensures Covers(r, t)
  {
    if tasks == [] then []
    else (if t[tasks[0]].entry == entry then [] else [tasks[0]]) + WithoutEntry(tasks[1..], t, entry)
  }

  function OnlyEntry<Id>(tasks: seq<Id>, t: Table<Id>, entry: string): (r: seq<Id>)
    requires Covers(tasks, t)
    ensures Covers(r, t)
  {
    if tasks == [] then []
    else (if t[tasks[0]].entry == entry then [tasks[0]] else []) + OnlyEntry(tasks[1..], t, entry)
  }

  function WithoutIds<Id>(tasks: seq<Id>, t: Table<Id>, ids: set<string>): (r: seq<Id>)
    requires Covers(tasks, t)
    ensures Covers(r, t)
  {
    if tasks == [] then []
    else (if t[tasks[0]].id in ids then [] else [tasks[0]]) + WithoutIds(tasks[1..], t, ids)
  }

  /** A task with this entry waits with a lower priority than the incoming one. */
  predicate Outranked<Id>(tasks: seq<Id>, t: Table<Id>, incoming: TaskInfo)
    requires Covers(tasks, t)
  {
    exists i | 0 <= i < |tasks| :: t[tasks[i]].entry == incoming.entry && t[tasks[i]].priority < incoming.priority
  }

  /** The locked first half of `submit`: drop every same-entry task if one of them is outranked. */
  function SubmitReplace<Id>(tasks: seq<Id>, t: Table<Id>, id: Id): (r: seq<Id>)
    requires Covers(tasks, t) && id in t
    ensures Covers(r, t)
  {
    if Outranked(tasks, t, t[id]) then WithoutEntry(tasks, t, t[id].entry) else tasks
  }

  /** The list after an undisturbed `submit`. */
  function Submit<Id>(tasks: seq<Id>, t: Table<Id>, id: Id): (r: seq<Id>)
    requires Covers(tasks, t) && id in t
    ensures Covers(r, t)
  {
    var kept := SubmitReplace(tasks, t, id);
    if EntryPresent(kept, t, t[id].entry) then kept else kept + [id]
  }

  /** Take the cancellation tokens of the tasks in `ids`. */
  function DropTokens<Id>(t: Table<Id>, ids: set<Id>): (r: Table<Id>)
    ensures r.Keys == t.Keys
  {
    map id | id in t :: if id in ids then t[id].(hasToken := false) else t[id]
  }

  function Elements<Id>(s: seq<Id>): set<Id> { set i | 0 <= i < |s| :: s[i] }

  /** The table after `submit`: replaced tasks lose their tokens. */
  function SubmitTable<Id>(tasks: seq<Id>, t: Table<Id>, id: Id): (r: Table<Id>)
    requires Covers(tasks, t) && id in t
    ensures r.Keys == t.Keys
  {
    if Outranked(tasks, t, t[id]) then DropTokens(t, Elements(OnlyEntry(tasks, t, t[id].entry))) else t
  }

  /** `fail_pool_download`: a retry returns the task to Idle, an exhausted one fails. */
  function FailedAttempt(info: TaskInfo): TaskInfo {
    if info.status == Cancelled then info
    else if info.retryTimes > 0 then info.(retryTimes := info.retryTimes - 1, status := Idle)
    else info.(status := Failed)
  }

  predicate Terminal(s: DownloadStatus) { s == Completed || s == Failed || s == Cancelled }

  /** `update_task_by_id` on the task it finds. */
  function Updated(info: TaskInfo, status: DownloadStatus): TaskInfo {
    info.(status := status, hasToken := info.hasToken && !(status == Paused || status == Cancelled))
  }
}
