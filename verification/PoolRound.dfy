/** What one undisturbed scheduling round achieves, from any pool contents. */
module PoolRound {
  import opened PoolSpec
  import opened Wrappers

  // ---------------------------------------------------------------------------------------
  // The sort

  ghost predicate Descending<Id>(s: seq<Id>, t: Table<Id>)
    requires Covers(s, t)
  {
    forall i, j | 0 <= i < j < |s| :: t[s[i]].priority >= t[s[j]].priority
  }

  /** The sub-list of one priority: what stability keeps in order. */
  ghost function AtPriority<Id>(s: seq<Id>, t: Table<Id>, p: int): seq<Id>
    requires Covers(s, t)
  {
    if s == [] then []
    else (if t[s[0]].priority == p then [s[0]] else []) + AtPriority(s[1..], t, p)
  }

  lemma AtPriorityOfCons<Id>(x: Id, s: seq<Id>, t: Table<Id>, p: int)
    requires x in t && Covers(s, t)
    ensures AtPriority([x] + s, t, p) == (if t[x].priority == p then [x] else []) + AtPriority(s, t, p)
  {
    assert ([x] + s)[1..] == s;
  }

  lemma {:induction false} InsertPermutes<Id>(x: Id, s: seq<Id>, t: Table<Id>)
    requires x in t && Covers(s, t)
    ensures multiset(InsertByPriority(x, s, t)) == multiset{x} + multiset(s)
  {
    if s != [] {
      InsertPermutes(x, s[1..], t);
      assert s == [s[0]] + s[1..];
    }
  }

  lemma {:induction false} InsertDescends<Id>(x: Id, s: seq<Id>, t: Table<Id>)
    requires x in t && Covers(s, t) && Descending(s, t)
    ensures Descending(InsertByPriority(x, s, t), t)
  {
    if s != [] && t[s[0]].priority > t[x].priority {
      var rest := InsertByPriority(x, s[1..], t);
      InsertDescends(x, s[1..], t);
      InsertPermutes(x, s[1..], t);
      forall j | 0 <= j < |rest| ensures t[s[0]].priority >= t[rest[j]].priority {
        assert rest[j] in multiset(rest);
        assert rest[j] == x || rest[j] in multiset(s[1..]);
      }
    }
  }

  lemma {:induction false} InsertIsStable<Id>(x: Id, s: seq<Id>, t: Table<Id>, p: int)
    requires x in t && Covers(s, t)
    ensures AtPriority(InsertByPriority(x, s, t), t, p) == AtPriority([x] + s, t, p)
  {
    AtPriorityOfCons(x, s, t, p);
    if s != [] && t[s[0]].priority > t[x].priority {
      InsertIsStable(x, s[1..], t, p);
      AtPriorityOfCons(x, s[1..], t, p);
      AtPriorityOfCons(s[0], InsertByPriority(x, s[1..], t), t, p);
    }
  }

  lemma {:induction false} SortIsStable<Id>(s: seq<Id>, t: Table<Id>)
    requires Covers(s, t)
    ensures multiset(SortByPriority(s, t)) == multiset(s)
    ensures Descending(SortByPriority(s, t), t)
    ensures forall p :: AtPriority(SortByPriority(s, t), t, p) == AtPriority(s, t, p)
  {
    if s != [] {
      SortIsStable(s[1..], t);
      var rest := SortByPriority(s[1..], t);
      InsertPermutes(s[0], rest, t);
      InsertDescends(s[0], rest, t);
      assert s == [s[0]] + s[1..];
      forall p ensures AtPriority(SortByPriority(s, t), t, p) == AtPriority(s, t, p) {
        InsertIsStable(s[0], rest, t, p);
        AtPriorityOfCons(s[0], rest, t, p);
        assert AtPriority(rest, t, p) == AtPriority(s[1..], t, p);
      }
    }
  }

  lemma SortedIsSubset<Id>(s: seq<Id>, t: Table<Id>)
    requires Covers(s, t)
    ensures forall i | 0 <= i < |SortByPriority(s, t)| :: SortByPriority(s, t)[i] in s
  {
    var r := SortByPriority(s, t);
    SortIsStable(s, t);
    forall i | 0 <= i < |r| ensures r[i] in s {
      assert r[i] in multiset(r);
    }
  }

  lemma {:induction false} HeadOfPriority<Id>(s: seq<Id>, t: Table<Id>, p: int)
    requires Covers(s, t)
    ensures AtPriority(s, t, p) == [] <==> forall i | 0 <= i < |s| :: t[s[i]].priority != p
  {
    if s != [] {
      HeadOfPriority(s[1..], t, p);
      assert forall i | 1 <= i < |s| :: s[i] == s[1..][i - 1];
    }
  }

  lemma AtPriorityOfTail<Id>(s: seq<Id>, t: Table<Id>, p: int)
    requires s != [] && Covers(s, t)
    ensures AtPriority(s[1..], t, p) ==
            if t[s[0]].priority == p then AtPriority(s, t, p)[1..] else AtPriority(s, t, p)
  {
  }

  lemma SameHeads<Id>(a: seq<Id>, b: seq<Id>, t: Table<Id>)
    requires Covers(a, t) && Covers(b, t) && Descending(a, t) && Descending(b, t) && a != [] && b != []
    requires forall p :: AtPriority(a, t, p) == AtPriority(b, t, p)
    ensures a[0] == b[0]
  {
    var p, q := t[a[0]].priority, t[b[0]].priority;
    HeadOfPriority(b, t, p);
    HeadOfPriority(a, t, q);
    assert AtPriority(a, t, p) == AtPriority(b, t, p);
    assert AtPriority(a, t, q) == AtPriority(b, t, q);
    assert p == q;
    assert AtPriority(a, t, p)[0] == a[0] && AtPriority(b, t, p)[0] == b[0];
  }

  /** Descending order and the per-priority sub-lists determine the whole list, so every stable
      sort by descending priority computes SortByPriority. */
  lemma {:induction false} StableSortIsUnique<Id>(a: seq<Id>, b: seq<Id>, t: Table<Id>)
    requires Covers(a, t) && Covers(b, t) && Descending(a, t) && Descending(b, t)
    requires forall p :: AtPriority(a, t, p) == AtPriority(b, t, p)
    ensures a == b
    decreases |a|
  {
    if a == [] || b == [] {
      var p := if a != [] then t[a[0]].priority else if b != [] then t[b[0]].priority else 0;
      HeadOfPriority(a, t, p);
      HeadOfPriority(b, t, p);
    } else {
      SameHeads(a, b, t);
      forall r ensures AtPriority(a[1..], t, r) == AtPriority(b[1..], t, r) {
        assert AtPriority(a, t, r) == AtPriority(b, t, r);
        AtPriorityOfTail(a, t, r);
        AtPriorityOfTail(b, t, r);
      }
      StableSortIsUnique(a[1..], b[1..], t);
    }
  }

  lemma SortKeepsNoRepeats<Id>(s: seq<Id>, r: seq<Id>)
    requires NoRepeats(s) && multiset(r) == multiset(s)
    ensures NoRepeats(r)
  {
    forall i, j | 0 <= i < j < |r| ensures r[i] != r[j] {
      if r[i] == r[j] {
        var x := r[i];
        RepeatCounted(r, i, j);
        assert multiset(s)[x] >= 2;
        CountedRepeats(s, x);
      }
    }
  }

  lemma RepeatCounted<Id>(r: seq<Id>, i: nat, j: nat)
    requires i < j < |r| && r[i] == r[j]
    ensures multiset(r)[r[i]] >= 2
  {
    assert r == r[..j] + r[j..];
    assert r[..j][i] in multiset(r[..j]);
    assert r[j..][0] in multiset(r[j..]);
  }

  lemma {:induction false} CountedRepeats<Id>(s: seq<Id>, x: Id)
    requires multiset(s)[x] >= 2
    ensures !NoRepeats(s)
  {
    if s != [] {
      assert s == [s[0]] + s[1..];
      if s[0] == x {
        assert x in multiset(s[1..]);
        var j :| 0 <= j < |s[1..]| && s[1..][j] == x;
        assert s[0] == s[j + 1];
      } else {
        CountedRepeats(s[1..], x);
        var i, j :| 0 <= i < j < |s[1..]| && s[1..][i] == s[1..][j];
        assert s[i + 1] == s[j + 1];
      }
    }
  }

  // ---------------------------------------------------------------------------------------
  // Pre-emption and claiming, slot by slot

  /** Pre-emption in one step: exactly the Downloading tasks found at slot `k` or later pause. */
  lemma {:induction false} PreemptedExactly<Id>(tasks: seq<Id>, t: Table<Id>, k: nat)
    requires Covers(tasks, t)
    ensures forall id | id in t ::
              PreemptFrom(tasks, t, k)[id] ==
              if (exists i | k <= i < |tasks| :: tasks[i] == id) && t[id].status == Downloading
              then t[id].(status := Paused, hasToken := false) else t[id]
    decreases |tasks| - k
  {
    if k < |tasks| {
      PreemptedExactly(tasks, PreemptOne(t, tasks[k]), k + 1);
    }
  }

  /** What claiming may change of one task: an Idle or Paused one becomes Downloading, and an Idle one
      without retries has three again. */
  ghost predicate MayClaim(before: TaskInfo, after: TaskInfo) {
    || after == before
    || ((before.status == Idle || before.status == Paused) &&
        after == before.(status := Downloading,
                         retryTimes := if before.status == Idle && before.retryTimes == 0 then 3 else before.retryTimes))
  }

  /** State of the claim loop before position `k`, relative to the table `t0` it started from. */
  ghost predicate ClaimProgress<Id>(tasks: seq<Id>, t0: Table<Id>, t: Table<Id>, k: nat)
    requires Covers(tasks, t0)
  {
    && t.Keys == t0.Keys
    && (forall id | id in t :: MayClaim(t0[id], t[id]))
    && (forall id | id in t :: t[id] != t0[id] ==> exists i | 0 <= i < k && i < |tasks| :: tasks[i] == id)
    && (forall i | 0 <= i < k && i < |tasks| ::
          t[tasks[i]].Claimable() ==> EntryActive(tasks, t, t[tasks[i]].entry))
  }

  lemma ClaimOneProgress<Id>(tasks: seq<Id>, t0: Table<Id>, t: Table<Id>, k: nat)
    requires Covers(tasks, t0) && k < |tasks| && ClaimProgress(tasks, t0, t, k)
    ensures ClaimProgress(tasks, t0, ClaimOne(tasks, t, tasks[k]), k + 1)
  {
    var id := tasks[k];
    var r := ClaimOne(tasks, t, id);
    if r != t {
      forall e | EntryActive(tasks, t, e) ensures EntryActive(tasks, r, e) {
        var i :| 0 <= i < |tasks| && t[tasks[i]].status == Downloading && t[tasks[i]].entry == e;
        assert r[tasks[i]].status == Downloading && r[tasks[i]].entry == e;
      }
    }
    forall x | x in r && r[x] != t0[x]
      ensures exists i | 0 <= i < k + 1 && i < |tasks| :: tasks[i] == x
    {
      if x == id {
        assert tasks[k] == x;
      }
    }
  }

  /** At the end either every slot was visited or the pool is full. */
  lemma {:induction false} ClaimLoopOutcome<Id>(tasks: seq<Id>, t0: Table<Id>, t: Table<Id>, poolSize: nat, k: nat)
    returns (stop: nat)
    requires Covers(tasks, t0) && ClaimProgress(tasks, t0, t, k)
    ensures ClaimProgress(tasks, t0, ClaimFrom(tasks, tasks, t, poolSize, k), stop)
    ensures stop >= |tasks| || |DownloadingSlots(tasks, ClaimFrom(tasks, tasks, t, poolSize, k))| >= poolSize
    decreases |tasks| - k
  {
    hide ClaimOne, DownloadingSlots, EntryActive, MayClaim;
    if k >= |tasks| || |DownloadingSlots(tasks, t)| >= poolSize {
      stop := k;
    } else {
      ClaimOneProgress(tasks, t0, t, k);
      stop := ClaimLoopOutcome(tasks, t0, ClaimOne(tasks, t, tasks[k]), poolSize, k + 1);
    }
  }

  // ---------------------------------------------------------------------------------------
  // Counting

  ghost function Below(n: nat): (s: set<nat>)
    ensures |s| == n && forall i: nat :: i in s <==> i < n
  {
    if n == 0 then {} else Below(n - 1) + {n - 1}
  }

  /** The distinct tasks of the list that are Downloading. */
  ghost function DownloadingTasks<Id>(tasks: seq<Id>, t: Table<Id>): set<Id>
    requires Covers(tasks, t)
  {
    set i | 0 <= i < |tasks| && t[tasks[i]].status == Downloading :: tasks[i]
  }

  /** A task in several slots is counted once, so tasks never outnumber slots. */
  lemma {:induction false} TasksAtMostSlots<Id>(tasks: seq<Id>, slots: set<nat>, ids: set<Id>)
    requires forall i | i in slots :: i < |tasks|
    requires ids == set i | i in slots :: tasks[i]
    ensures |ids| <= |slots|
    decreases slots
  {
    if slots == {} {
      assert ids == {};
    } else {
      var i :| i in slots;
      var rest := slots - {i};
      var restIds := set j | j in rest :: tasks[j];
      TasksAtMostSlots(tasks, rest, restIds);
      assert ids == restIds + {tasks[i]};
    }
  }

  lemma DownloadingTasksAtMostSlots<Id>(tasks: seq<Id>, t: Table<Id>)
    requires Covers(tasks, t)
    ensures |DownloadingTasks(tasks, t)| <= |DownloadingSlots(tasks, t)|
  {
    var slots := DownloadingSlots(tasks, t);
    assert DownloadingTasks(tasks, t) == set i | i in slots :: tasks[i];
    TasksAtMostSlots(tasks, slots, DownloadingTasks(tasks, t));
  }

  /** Once slots from `poolSize` on hold no Downloading task, at most `poolSize` slots do. */
  lemma PreemptRestoresCapacity<Id>(tasks: seq<Id>, t: Table<Id>, poolSize: nat)
    requires Covers(tasks, t)
    ensures |DownloadingSlots(tasks, PreemptFrom(tasks, t, poolSize))| <= poolSize
  {
    var t1 := PreemptFrom(tasks, t, poolSize);
    PreemptedExactly(tasks, t, poolSize);
    var below := Below(poolSize);
    forall i | i in DownloadingSlots(tasks, t1) ensures i in below {
      assert exists k | 0 <= k < |tasks| :: tasks[k] == tasks[i];
    }
    SmallerSet(DownloadingSlots(tasks, t1), below);
  }

  lemma ClaimAddsOneTask<Id>(tasks: seq<Id>, t: Table<Id>, id: Id)
    requires Covers(tasks, t) && id in t
    ensures DownloadingTasks(tasks, ClaimOne(tasks, t, id)) <= DownloadingTasks(tasks, t) + {id}
  {
  }

  lemma {:induction false} ClaimLoopWithinCapacity<Id>(tasks: seq<Id>, t: Table<Id>, poolSize: nat, k: nat)
    requires Covers(tasks, t) && |DownloadingTasks(tasks, t)| <= poolSize
    ensures |DownloadingTasks(tasks, ClaimFrom(tasks, tasks, t, poolSize, k))| <= poolSize
    decreases |tasks| - k
  {
    hide ClaimOne, DownloadingTasks, DownloadingSlots, EntryActive;
    if k < |tasks| && |DownloadingSlots(tasks, t)| < poolSize {
      var r := ClaimOne(tasks, t, tasks[k]);
      DownloadingTasksAtMostSlots(tasks, t);
      ClaimAddsOneTask(tasks, t, tasks[k]);
      SmallerSet(DownloadingTasks(tasks, r), DownloadingTasks(tasks, t) + {tasks[k]});
      ClaimLoopWithinCapacity(tasks, r, poolSize, k + 1);
    }
  }

  // ---------------------------------------------------------------------------------------
  // The round

  /** A task waits in vain: it is Idle or Paused, and nothing of its entry is Downloading. */
  ghost predicate Waiting<Id>(tasks: seq<Id>, t: Table<Id>, i: nat)
    requires Covers(tasks, t) && i < |tasks|
  {
    && (t[tasks[i]].status == Idle || t[tasks[i]].status == Paused)
    && forall j | 0 <= j < |tasks| && t[tasks[j]].status == Downloading :: t[tasks[j]].entry != t[tasks[i]].entry
  }

  /** Whatever the pool held, at most `poolSize` distinct tasks are Downloading after a round. */
  lemma {:induction false} RoundRestoresCapacity<Id>(tasks: seq<Id>, t: Table<Id>, poolSize: nat)
    requires Covers(tasks, t)
    ensures |DownloadingTasks(SortByPriority(tasks, t), RoundTable(tasks, t, poolSize))| <= poolSize
  {
    var sorted := SortByPriority(tasks, t);
    var t1 := PreemptFrom(sorted, t, poolSize);
    PreemptRestoresCapacity(sorted, t, poolSize);
    DownloadingTasksAtMostSlots(sorted, t1);
    ClaimLoopWithinCapacity(sorted, t1, poolSize, 0);
  }

  /** While a slot is free, counting each task as often as it is listed, as the code does, every Idle or
      Paused task left has its entry downloading. */
  lemma {:induction false} RoundFillsSlots<Id>(tasks: seq<Id>, t: Table<Id>, poolSize: nat)
    requires Covers(tasks, t)
    ensures var sorted, r := SortByPriority(tasks, t), RoundTable(tasks, t, poolSize);
            |set i: nat | i < |sorted| && r[sorted[i]].status == Downloading| < poolSize ==>
              forall i: nat | i < |sorted| :: !Waiting(sorted, r, i)
  {
    var sorted := SortByPriority(tasks, t);
    var t1 := PreemptFrom(sorted, t, poolSize);
    var stop := ClaimLoopOutcome(sorted, t1, t1, poolSize, 0);
  }

  /** The slots of each task stand side by side. */
  ghost predicate SideBySide<Id>(s: seq<Id>) {
    forall a, b, c | 0 <= a < b < c < |s| && s[a] == s[c] :: s[b] == s[a]
  }

  /** No priority inversion: when no other task stands between two slots of one task, after a round
      no waiting task stands before a Downloading one in (priority descending, insertion order). */
  lemma {:induction false} NoPriorityInversion<Id>(tasks: seq<Id>, t: Table<Id>, poolSize: nat, i: nat, j: nat)
    requires Covers(tasks, t) && SideBySide(SortByPriority(tasks, t))
    requires i < j < |SortByPriority(tasks, t)|
    requires Waiting(SortByPriority(tasks, t), RoundTable(tasks, t, poolSize), i)
    ensures RoundTable(tasks, t, poolSize)[SortByPriority(tasks, t)[j]].status != Downloading
  {
    var sorted := SortByPriority(tasks, t);
    var t1 := PreemptFrom(sorted, t, poolSize);
    OverflowPaused(sorted, t, poolSize);
    var stop := ClaimLoopOutcome(sorted, t1, t1, poolSize, 0);
    NoInversionAt(sorted, t1, RoundTable(tasks, t, poolSize), poolSize, stop, i, j);
  }

  /** In particular when no task is listed twice. */
  lemma {:induction false} NoRepeatsNoInversion<Id>(tasks: seq<Id>, t: Table<Id>, poolSize: nat, i: nat, j: nat)
    requires Covers(tasks, t) && NoRepeats(tasks)
    requires i < j < |SortByPriority(tasks, t)|
    requires Waiting(SortByPriority(tasks, t), RoundTable(tasks, t, poolSize), i)
    ensures RoundTable(tasks, t, poolSize)[SortByPriority(tasks, t)[j]].status != Downloading
  {
    hide RoundTable, Waiting;
    SortIsStable(tasks, t);
    SortKeepsNoRepeats(tasks, SortByPriority(tasks, t));
    NoPriorityInversion(tasks, t, poolSize, i, j);
  }

  lemma OverflowPaused<Id>(tasks: seq<Id>, t: Table<Id>, poolSize: nat)
    requires Covers(tasks, t)
    ensures forall i | poolSize <= i < |tasks| :: PreemptFrom(tasks, t, poolSize)[tasks[i]].status != Downloading
  {
    PreemptedExactly(tasks, t, poolSize);
  }

  /** The counting step: a waiting slot `i` below a Downloading slot `j` would leave the pool
      short of `poolSize` downloads, so the loop would not have stopped before `i`. */
  lemma NoInversionAt<Id>(tasks: seq<Id>, t1: Table<Id>, r: Table<Id>, poolSize: nat, stop: nat, i: nat, j: nat)
    requires Covers(tasks, t1) && SideBySide(tasks) && ClaimProgress(tasks, t1, r, stop)
    requires forall k | poolSize <= k < |tasks| :: t1[tasks[k]].status != Downloading
    requires stop >= |tasks| || |DownloadingSlots(tasks, r)| >= poolSize
    requires i < j < |tasks| && Waiting(tasks, r, i)
    ensures r[tasks[j]].status != Downloading
  {
    if r[tasks[j]].status == Downloading {
      assert stop <= i;
      SurvivorsAreLow(tasks, t1, r, poolSize, stop, i);
      var others := Below(poolSize) - {i};
      assert j in DownloadingSlots(tasks, r) && i in Below(poolSize);
      SmallerSet(DownloadingSlots(tasks, r), others);
      assert false;
    }
  }

  /** With slot `i` waiting, a Downloading slot was claimed below `i` or survived pre-emption below
      `poolSize`. */
  lemma SurvivorsAreLow<Id>(tasks: seq<Id>, t1: Table<Id>, r: Table<Id>, poolSize: nat, stop: nat, i: nat)
    requires Covers(tasks, t1) && SideBySide(tasks) && ClaimProgress(tasks, t1, r, stop)
    requires forall k | poolSize <= k < |tasks| :: t1[tasks[k]].status != Downloading
    requires stop <= i < |tasks| && Waiting(tasks, r, i)
    ensures forall d | d in DownloadingSlots(tasks, r) :: d < i || d < poolSize
  {
    forall d | d in DownloadingSlots(tasks, r) ensures d < i || d < poolSize {
      if d >= poolSize {
        assert r[tasks[d]] != t1[tasks[d]];
        var k :| 0 <= k < stop && k < |tasks| && tasks[k] == tasks[d];
      }
    }
  }

  lemma {:induction false} SortedAlready<Id>(s: seq<Id>, t: Table<Id>)
    requires Covers(s, t) && forall i, j | 0 <= i < |s| && 0 <= j < |s| :: t[s[i]].priority == t[s[j]].priority
    ensures SortByPriority(s, t) == s
  {
    if s != [] {
      SortedAlready(s[1..], t);
      assert s == [s[0]] + s[1..];
    }
  }

  /** No two distinct Downloading tasks of the pool share a cache entry. */
  ghost predicate EntriesDistinct<Id>(tasks: seq<Id>, t: Table<Id>)
    requires Covers(tasks, t)
  {
    forall i, j | 0 <= i < |tasks| && 0 <= j < |tasks| ::
      (t[tasks[i]].status == Downloading && t[tasks[j]].status == Downloading
       && t[tasks[i]].entry == t[tasks[j]].entry) ==> tasks[i] == tasks[j]
  }

  /** A round starts no second download of an entry. */
  lemma RoundKeepsEntriesDistinct<Id>(tasks: seq<Id>, t: Table<Id>, poolSize: nat)
    requires Covers(tasks, t) && EntriesDistinct(tasks, t)
    ensures EntriesDistinct(SortByPriority(tasks, t), RoundTable(tasks, t, poolSize))
  {
    var sorted := SortByPriority(tasks, t);
    SortedIsSubset(tasks, t);
    FewerKeepEntriesDistinct(tasks, t, sorted, t);
    PreemptedExactly(sorted, t, poolSize);
    FewerKeepEntriesDistinct(sorted, t, sorted, PreemptFrom(sorted, t, poolSize));
    ClaimLoopKeepsEntries(sorted, PreemptFrom(sorted, t, poolSize), poolSize, 0);
  }

  lemma FewerKeepEntriesDistinct<Id>(tasks: seq<Id>, t: Table<Id>, less: seq<Id>, u: Table<Id>)
    requires Covers(tasks, t) && EntriesDistinct(tasks, t) && Covers(less, u)
    requires forall i | 0 <= i < |less| && u[less[i]].status == Downloading ::
               less[i] in tasks && t[less[i]].status == Downloading && t[less[i]].entry == u[less[i]].entry
    ensures EntriesDistinct(less, u)
  {
    forall i, j | 0 <= i < |less| && 0 <= j < |less| && u[less[i]].status == Downloading
                  && u[less[j]].status == Downloading && u[less[i]].entry == u[less[j]].entry
      ensures less[i] == less[j]
    {
      var k :| 0 <= k < |tasks| && tasks[k] == less[i];
      var m :| 0 <= m < |tasks| && tasks[m] == less[j];
    }
  }

  lemma {:induction false} ClaimLoopKeepsEntries<Id>(tasks: seq<Id>, t: Table<Id>, poolSize: nat, k: nat)
    requires Covers(tasks, t) && EntriesDistinct(tasks, t)
    ensures EntriesDistinct(tasks, ClaimFrom(tasks, tasks, t, poolSize, k))
    decreases |tasks| - k
  {
    if k < |tasks| && |DownloadingSlots(tasks, t)| < poolSize {
      ClaimLoopKeepsEntries(tasks, ClaimOne(tasks, t, tasks[k]), poolSize, k + 1);
    }
  }

  /** Some slot from `k` on holds the task. */
  ghost predicate ListedFrom<Id>(s: seq<Id>, k: nat, id: Id) { exists i :: k <= i < |s| && s[i] == id }

  /** A round only pauses the downloads at or past the pool size, taking their tokens, and claims Idle and
      Paused tasks, those among them.  A download with all its slots before is left alone. */
  lemma RoundChangesLittle<Id>(tasks: seq<Id>, t: Table<Id>, poolSize: nat, id: Id)
    requires Covers(tasks, t) && id in t
    ensures var sorted, r := SortByPriority(tasks, t), RoundTable(tasks, t, poolSize)[id];
            if t[id].status != Downloading then MayClaim(t[id], r) && (r != t[id] ==> id in sorted)
            else if ListedFrom(sorted, poolSize, id) then MayClaim(t[id].(status := Paused, hasToken := false), r)
            else r == t[id]
  {
    hide PreemptFrom, SortByPriority, MayClaim, DownloadingSlots, EntryActive;
    var sorted := SortByPriority(tasks, t);
    var t1 := PreemptFrom(sorted, t, poolSize);
    PreemptedExactly(sorted, t, poolSize);
    ClaimedLittle(sorted, t1, poolSize, id);
    assert RoundTable(tasks, t, poolSize)[id] == ClaimFrom(sorted, sorted, t1, poolSize, 0)[id];
    hide ClaimFrom, RoundTable;
    if t[id].status != Downloading {
      assert t1[id] == t[id];
    } else if ListedFrom(sorted, poolSize, id) {
      assert t1[id] == t[id].(status := Paused, hasToken := false);
    } else {
      assert t1[id] == t[id];
    }
  }

  lemma {:induction false} ClaimedLittle<Id>(tasks: seq<Id>, t: Table<Id>, poolSize: nat, id: Id)
    requires Covers(tasks, t) && id in t
    ensures var r := ClaimFrom(tasks, tasks, t, poolSize, 0)[id];
            && MayClaim(t[id], r) && (r != t[id] ==> id in tasks)
            && (t[id].status == Downloading ==> r == t[id])
  {
    var stop := ClaimLoopOutcome(tasks, t, t, poolSize, 0);
    hide ClaimFrom, DownloadingSlots, EntryActive;
    var r := ClaimFrom(tasks, tasks, t, poolSize, 0);
    assert MayClaim(t[id], r[id]);
    if r[id] != t[id] {
      var i :| 0 <= i < stop && i < |tasks| && tasks[i] == id;
    }
  }

  // ---------------------------------------------------------------------------------------
  // Submission

  lemma OnlyEntryOfCons<Id>(x: Id, s: seq<Id>, t: Table<Id>, e: string)
    requires x in t && Covers(s, t)
    ensures OnlyEntry([x] + s, t, e) == (if t[x].entry == e then [x] else []) + OnlyEntry(s, t, e)
  {
    assert ([x] + s)[1..] == s;
  }

  lemma {:induction false} WithoutEntryKeeps<Id>(tasks: seq<Id>, t: Table<Id>, e: string, f: string)
    requires Covers(tasks, t)
    ensures OnlyEntry(WithoutEntry(tasks, t, e), t, f) == if e == f then [] else OnlyEntry(tasks, t, f)
  {
    if tasks != [] {
      WithoutEntryKeeps(tasks[1..], t, e, f);
      var rest := WithoutEntry(tasks[1..], t, e);
      if t[tasks[0]].entry == e {
        assert WithoutEntry(tasks, t, e) == rest;
      } else {
        OnlyEntryOfCons(tasks[0], rest, t, f);
      }
    }
  }

  lemma {:induction false} PresentMeansListed<Id>(tasks: seq<Id>, t: Table<Id>, e: string)
    requires Covers(tasks, t)
    ensures EntryPresent(tasks, t, e) <==> OnlyEntry(tasks, t, e) != []
    ensures forall x | x in OnlyEntry(tasks, t, e) :: x in tasks && t[x].entry == e
  {
    if tasks != [] {
      PresentMeansListed(tasks[1..], t, e);
      if EntryPresent(tasks, t, e) && t[tasks[0]].entry != e {
        var i :| 0 <= i < |tasks| && t[tasks[i]].entry == e;
        assert tasks[1..][i - 1] == tasks[i];
      }
      if EntryPresent(tasks[1..], t, e) {
        var i :| 0 <= i < |tasks[1..]| && t[tasks[1..][i]].entry == e;
        assert tasks[i + 1] == tasks[1..][i];
      }
    }
  }

  lemma {:induction false} OnlyEntryAppend<Id>(tasks: seq<Id>, x: Id, t: Table<Id>, e: string)
    requires Covers(tasks, t) && x in t
    ensures OnlyEntry(tasks + [x], t, e) == OnlyEntry(tasks, t, e) + (if t[x].entry == e then [x] else [])
  {
    if tasks == [] {
      assert tasks + [x] == [x];
    } else {
      OnlyEntryAppend(tasks[1..], x, t, e);
      assert tasks + [x] == [tasks[0]] + (tasks[1..] + [x]);
      OnlyEntryOfCons(tasks[0], tasks[1..] + [x], t, e);
    }
  }

  /** The whole effect of an undisturbed submit, per cache entry: other entries keep their tasks
      in order; the submitted entry is replaced by the newcomer exactly when one of its tasks is
      outranked, filled when it was empty, and left alone otherwise. */
  lemma SubmitPerEntry<Id>(tasks: seq<Id>, t: Table<Id>, id: Id, f: string)
    requires Covers(tasks, t) && id in t
    ensures OnlyEntry(Submit(tasks, t, id), t, f) ==
            if f != t[id].entry || (OnlyEntry(tasks, t, f) != [] && !Outranked(tasks, t, t[id]))
            then OnlyEntry(tasks, t, f) else [id]
  {
    var e := t[id].entry;
    var kept := SubmitReplace(tasks, t, id);
    WithoutEntryKeeps(tasks, t, e, f);
    WithoutEntryKeeps(tasks, t, e, e);
    PresentMeansListed(kept, t, e);
    PresentMeansListed(tasks, t, e);
    OnlyEntryAppend(kept, id, t, f);
  }

  ghost predicate OneTaskPerEntry<Id>(tasks: seq<Id>, t: Table<Id>)
    requires Covers(tasks, t)
  {
    forall e :: |OnlyEntry(tasks, t, e)| <= 1
  }

  /** Where each entry has at most one task, being outranked is about that task. */
  lemma {:induction false} OutrankedByHolder<Id>(tasks: seq<Id>, t: Table<Id>, incoming: TaskInfo)
    requires Covers(tasks, t) && |OnlyEntry(tasks, t, incoming.entry)| <= 1
    ensures var held := OnlyEntry(tasks, t, incoming.entry);
            Outranked(tasks, t, incoming) <==> held != [] && t[held[0]].priority < incoming.priority
  {
    var held := OnlyEntry(tasks, t, incoming.entry);
    PresentMeansListed(tasks, t, incoming.entry);
    if Outranked(tasks, t, incoming) {
      var i :| 0 <= i < |tasks| && t[tasks[i]].entry == incoming.entry && t[tasks[i]].priority < incoming.priority;
      ListedIfEntry(tasks, t, incoming.entry, i);
      assert tasks[i] == held[0];
    }
    if held != [] {
      assert held[0] in held;
      var k :| 0 <= k < |tasks| && tasks[k] == held[0];
    }
  }

  /** If each entry has at most one task, submit keeps it so, and the submitted entry is held by
      the higher priority of the two. */
  lemma {:induction false} SubmitKeepsOnePerEntry<Id>(tasks: seq<Id>, t: Table<Id>, id: Id)
    requires Covers(tasks, t) && id in t && OneTaskPerEntry(tasks, t)
    ensures OneTaskPerEntry(Submit(tasks, t, id), t)
    ensures var held := OnlyEntry(Submit(tasks, t, id), t, t[id].entry);
            var before := OnlyEntry(tasks, t, t[id].entry);
            |held| == 1 && t[held[0]].priority ==
              if before == [] || t[before[0]].priority < t[id].priority then t[id].priority else t[before[0]].priority
  {
    forall f ensures |OnlyEntry(Submit(tasks, t, id), t, f)| <= 1 {
      SubmitPerEntry(tasks, t, id, f);
    }
    SubmitPerEntry(tasks, t, id, t[id].entry);
    OutrankedByHolder(tasks, t, t[id]);
  }

  lemma {:induction false} ListedIfEntry<Id>(tasks: seq<Id>, t: Table<Id>, e: string, i: nat)
    requires Covers(tasks, t) && i < |tasks| && t[tasks[i]].entry == e
    ensures tasks[i] in OnlyEntry(tasks, t, e)
  {
    if i > 0 {
      ListedIfEntry(tasks[1..], t, e, i - 1);
    }
  }
}
