/** The pool as the source keeps it: shared task objects updated in place, and a list of them
    that the methods reassign.  Every method is tied to the value-level functions of PoolSpec. */
module DownloadPools {
  import opened PoolSpec
  import PoolRound

  class DownloadTask {
    const id: string
    const url: string
    const entry: string      // CacheKey::for_task(..).entry, fixed once the task is submitted
    const priority: int
    var status: DownloadStatus
    var retryTimes: int
    var hasToken: bool

    constructor (id: string, url: string, entry: string, priority: int)
      ensures Info() == TaskInfo(id, entry, priority, Idle, 0, false) && this.url == url
    {
      this.id, this.url, this.entry, this.priority := id, url, entry, priority;
      status, retryTimes, hasToken := Idle, 0, false;
    }

    function Info(): TaskInfo
      reads this
    {
      TaskInfo(id, entry, priority, status, retryTimes, hasToken)
    }
  }

  /** The current fields of a set of tasks. */
  function View(objs: set<DownloadTask>): Table<DownloadTask>
    reads objs
  {
    map o | o in objs :: o.Info()
  }

  /** First slot holding a task with this id, or the length of the list. */
  function FindId(tasks: seq<DownloadTask>, id: string): (i: nat)
    ensures i <= |tasks|
    ensures i < |tasks| ==> tasks[i].id == id
    ensures forall k | 0 <= k < i :: tasks[k].id != id
  {
    if tasks == [] || tasks[0].id == id then 0 else 1 + FindId(tasks[1..], id)
  }

  class DownloadPool {
    const poolSize: nat
    var tasks: seq<DownloadTask>

    constructor (poolSize: nat)
      requires poolSize > 0
      ensures this.poolSize == poolSize && tasks == []
    {
      this.poolSize := poolSize;
      tasks := [];
    }

    /** run_download_pool_round with nothing else running. */
    method RunDownloadPoolRound()
      modifies this`tasks, Elements(tasks)
      ensures tasks == SortByPriority(old(tasks), old(View(Elements(tasks))))
      ensures View(old(Elements(tasks))) == RoundTable(old(tasks), old(View(Elements(tasks))), poolSize)
    {
      if tasks == [] {
        return;
      }
      ghost var objs := Elements(tasks);
      SortedMembers(tasks, View(objs));
      tasks := SortByPriority(tasks, View(Elements(tasks)));
      PreemptOverflow();
      ClaimWaiting(tasks);
    }

    /** The locked half of a round: pause the downloads beyond the pool size. */
    method PreemptOverflow()
      modifies Elements(tasks)
      ensures View(Elements(tasks)) == PreemptFrom(tasks, old(View(Elements(tasks))), poolSize)
    {
      var k := poolSize;
      while k < |tasks|
        invariant PreemptFrom(tasks, View(Elements(tasks)), k) ==
                  PreemptFrom(tasks, old(View(Elements(tasks))), poolSize)
      {
        assert tasks[k] in Elements(tasks);
        PauseDownload(tasks[k], Elements(tasks));
        k := k + 1;
      }
    }

    /** One iteration of the pre-emption loop. */
    static method PauseDownload(task: DownloadTask, ghost objs: set<DownloadTask>)
      requires task in objs
      modifies task
      ensures View(objs) == PreemptOne(old(View(objs)), task)
    {
      if task.status == Downloading {
        task.hasToken := false;
        task.status := Paused;
      }
    }

    /** The claim loop over a snapshot of the list. */
    method ClaimWaiting(list: seq<DownloadTask>)
      requires forall i | 0 <= i < |list| :: list[i] in tasks
      modifies Elements(tasks)
      ensures View(Elements(tasks)) == ClaimFrom(tasks, list, old(View(Elements(tasks))), poolSize, 0)
    {
      var k := 0;
      while k < |list|
        invariant 0 <= k <= |list|
        invariant Covers(list, View(Elements(tasks)))
        invariant ClaimFrom(tasks, list, View(Elements(tasks)), poolSize, k) ==
                  ClaimFrom(tasks, list, old(View(Elements(tasks))), poolSize, 0)
      {
        if |DownloadingSlots(tasks, View(Elements(tasks)))| >= poolSize {
          break;
        }
        ClaimUnlessActive(list[k]);
        k := k + 1;
      }
    }

    /** One iteration of the claim loop, after the capacity check. */
    method ClaimUnlessActive(task: DownloadTask)
      requires task in tasks
      modifies task
      ensures View(Elements(tasks)) == ClaimOne(tasks, old(View(Elements(tasks))), task)
    {
      if !EntryActive(tasks, View(Elements(tasks)), task.entry) {
        Claim(task, Elements(tasks));
      }
    }

    static method Claim(task: DownloadTask, ghost objs: set<DownloadTask>)
      requires task in objs
      modifies task
      ensures View(objs) == if old(task.Info()).Claimable()
                            then old(View(objs))[task := Claimed(old(task.Info()))] else old(View(objs))
    {
      if task.status == Idle || task.status == Paused {
        if task.retryTimes == 0 && task.status == Idle {
          task.retryTimes := 3;
        }
        task.status := Downloading;
      }
    }

    /** submit, when no other actor comes between its two halves. */
    method Submit(task: DownloadTask)
      modifies this`tasks, Elements(tasks)
      ensures tasks == PoolSpec.Submit(old(tasks), old(View(Elements(tasks) + {task})), task)
      ensures View(old(Elements(tasks) + {task})) ==
              SubmitTable(old(tasks), old(View(Elements(tasks) + {task})), task)
    {
      var objs := Elements(tasks) + {task};
      ghost var view0 := View(objs);
      ReplaceOutranked(task);
      PresentAnyView(tasks, view0, View(objs), task.entry);
      if !EntryPresent(tasks, View(objs), task.entry) {
        tasks := tasks + [task];
      }
    }

    /** The locked half of submit. */
    method ReplaceOutranked(task: DownloadTask)
      modifies this`tasks, Elements(tasks)
      ensures tasks == SubmitReplace(old(tasks), old(View(Elements(tasks) + {task})), task)
      ensures View(old(Elements(tasks) + {task})) ==
              SubmitTable(old(tasks), old(View(Elements(tasks) + {task})), task)
    {
      var objs := Elements(tasks) + {task};
      if Outranked(tasks, View(objs), View(objs)[task]) {
        var removed := OnlyEntry(tasks, View(objs), task.entry);
        OnlyEntryMembers(tasks, View(objs), task.entry);
        tasks := WithoutEntry(tasks, View(objs), task.entry);
        CancelTasks(removed, objs);
      }
    }

    /** cancel_tasks: take every token. */
    static method CancelTasks(removed: seq<DownloadTask>, ghost objs: set<DownloadTask>)
      requires Elements(removed) <= objs
      modifies Elements(removed)
      ensures View(objs) == DropTokens(old(View(objs)), Elements(removed))
      ensures forall o | o in objs ::
                o.Info() == if o in removed then old(o.Info()).(hasToken := false) else old(o.Info())
    {
      var k := 0;
      while k < |removed|
        invariant 0 <= k <= |removed|
        invariant View(objs) == DropTokens(old(View(objs)), Elements(removed[..k]))
      {
        assert removed[k] in Elements(removed);
        removed[k].hasToken := false;
        assert Elements(removed[..k + 1]) == Elements(removed[..k]) + {removed[k]};
        k := k + 1;
      }
      assert removed[..k] == removed;
      assert forall o :: o in Elements(removed) <==> o in removed;
    }

    /** update_task_by_id: the first task with the id, then a retain for terminal statuses. */
    method UpdateTaskById(id: string, status: DownloadStatus)
      modifies this`tasks, Elements(tasks)
      ensures var i := FindId(old(tasks), id);
              var view0 := old(View(Elements(tasks)));
              if i == |old(tasks)| then tasks == old(tasks) && View(old(Elements(tasks))) == view0
              else
                var keepsToken := view0[old(tasks)[i]].hasToken && status != Paused && status != Cancelled;
                && View(old(Elements(tasks))) ==
                   view0[old(tasks)[i] := view0[old(tasks)[i]].(status := status, hasToken := keepsToken)]
                && tasks == if status == Completed || status == Failed || status == Cancelled
                            then WithoutIds(old(tasks), view0, {id}) else old(tasks)
    {
      var i := FindId(tasks, id);
      if i < |tasks| {
        ghost var view0 := View(Elements(tasks));
        SetStatus(tasks[i], status, Elements(tasks));
        if Terminal(status) {
          WithoutIdsAnyView(tasks, view0, View(Elements(tasks)), {id});
          tasks := WithoutIds(tasks, View(Elements(tasks)), {id});
        }
      }
    }

    /** Write the status of one task, taking its token on a pause or a cancellation. */
    static method SetStatus(task: DownloadTask, status: DownloadStatus, ghost objs: set<DownloadTask>)
      requires task in objs
      modifies task
      ensures View(objs) == old(View(objs))[task := Updated(old(task.Info()), status)]
    {
      if status == Paused || status == Cancelled {
        task.hasToken := false;
      }
      task.status := status;
    }

    /** remove_tasks_by_ids: workers are cancelled, statuses stay. */
    method RemoveTasksByIds(ids: set<string>)
      modifies this`tasks, Elements(tasks)
      ensures var view0 := old(View(Elements(tasks)));
              tasks == WithoutIds(old(tasks), view0, ids)
              && View(old(Elements(tasks))) ==
                 DropTokens(view0, set o | o in old(Elements(tasks)) && o.id in ids)
      ensures forall o | o in old(Elements(tasks)) ::
                o.Info() == if o.id in ids then old(o.Info()).(hasToken := false) else old(o.Info())
    {
      hide WithoutIds;
      var objs := Elements(tasks);
      ghost var view0 := View(objs);
      var before := tasks;
      var k := 0;
      while k < |before|
        invariant 0 <= k <= |before| && tasks == before
        invariant View(objs) == DropTokens(view0, set o | o in Elements(before[..k]) && o.id in ids)
      {
        if before[k].id in ids {
          before[k].hasToken := false;
        }
        assert Elements(before[..k + 1]) == Elements(before[..k]) + {before[k]};
        k := k + 1;
      }
      assert before[..k] == before;
      WithoutIdsAnyView(tasks, view0, View(objs), ids);
      tasks := WithoutIds(tasks, View(objs), ids);
    }

    /** What the prefetch walk does with the URLs of an evicted playlist. */
    method RemoveEvicted(urls: set<string>)
      modifies this`tasks, Elements(tasks)
      ensures var view0, ids := old(View(Elements(tasks))), set o | o in old(Elements(tasks)) && o.url in urls :: o.id;
              tasks == WithoutIds(old(tasks), view0, ids)
              && View(old(Elements(tasks))) == DropTokens(view0, set o | o in old(Elements(tasks)) && o.id in ids)
      ensures forall o | o in Elements(tasks) :: o in old(Elements(tasks)) && o.url !in urls
      ensures forall o | o in old(Elements(tasks)) && o !in Elements(tasks) ::
                exists p :: p in old(Elements(tasks)) && p.url in urls && p.id == o.id
    {
      var objs := Elements(tasks);
      ghost var before, view0 := tasks, View(objs);
      var ids := set o | o in objs && o.url in urls :: o.id;
      RemoveTasksByIds(ids);
      WithoutIdsKeeps(before, view0, ids);
    }

    /** fail_pool_download on the pool: a retry keeps the task, a final failure drops it. */
    method FailPoolDownload(task: DownloadTask)
      modifies this`tasks, task
      ensures var before := old(task.Info());
              task.Info() == if before.status == Cancelled then before
                             else if before.retryTimes > 0 then before.(status := Idle, retryTimes := before.retryTimes - 1)
                             else before.(status := Failed)
      ensures tasks == if old(task.status) != Cancelled && task.status == Failed
                       then WithoutIds(old(tasks), old(View(Elements(tasks))), {task.id}) else old(tasks)
    {
      if task.status == Cancelled {
        return;
      }
      ghost var view0 := View(Elements(tasks));
      if task.retryTimes > 0 {
        task.retryTimes := task.retryTimes - 1;
        task.status := Idle;
      } else {
        task.status := Failed;
      }
      if task.status == Failed {
        WithoutIdsAnyView(tasks, view0, View(Elements(tasks)), {task.id});
        tasks := WithoutIds(tasks, View(Elements(tasks)), {task.id});
      }
    }

    /** resume_task_by_id, with the submission it spawns run at once. */
    method ResumeTaskById(id: string)
      modifies this`tasks, Elements(tasks)
      ensures var i := FindId(old(tasks), id);
              i == |old(tasks)| ==> tasks == old(tasks)
      ensures var i := FindId(old(tasks), id);
              var view0 := old(View(Elements(tasks)));
              i < |old(tasks)| ==>
                var view1 := view0[old(tasks)[i] := view0[old(tasks)[i]].(status := Idle)];
                tasks == PoolSpec.Submit(old(tasks), view1, old(tasks)[i])
                && View(old(Elements(tasks))) == SubmitTable(old(tasks), view1, old(tasks)[i])
    {
      var i := FindId(tasks, id);
      if i < |tasks| {
        var task := tasks[i];
        ghost var view0 := View(Elements(tasks));
        task.status := Idle;
        assert Elements(tasks) + {task} == Elements(tasks);
        assert View(Elements(tasks)) == view0[task := view0[task].(status := Idle)];
        Submit(task);
      }
    }
  }

  // ---------------------------------------------------------------------------------------
  // Filters by entry and id ignore the fields that change

  lemma SortedMembers(tasks: seq<DownloadTask>, t: Table<DownloadTask>)
    requires Covers(tasks, t)
    ensures Elements(SortByPriority(tasks, t)) == Elements(tasks)
  {
    var sorted := SortByPriority(tasks, t);
    PoolRound.SortIsStable(tasks, t);
    assert forall x :: x in Elements(sorted) <==> x in multiset(sorted);
    assert forall x :: x in Elements(tasks) <==> x in multiset(tasks);
  }

  lemma {:induction false} OnlyEntryMembers(tasks: seq<DownloadTask>, t: Table<DownloadTask>, e: string)
    requires Covers(tasks, t)
    ensures forall x | x in OnlyEntry(tasks, t, e) :: x in Elements(tasks)
  {
    if tasks != [] {
      OnlyEntryMembers(tasks[1..], t, e);
      forall x | x in OnlyEntry(tasks, t, e) ensures x in Elements(tasks) {
        if x != tasks[0] {
          assert x in Elements(tasks[1..]);
          var i :| 0 <= i < |tasks[1..]| && tasks[1..][i] == x;
          assert tasks[i + 1] == x;
        }
      }
    }
  }

  lemma PresentAnyView(tasks: seq<DownloadTask>, t: Table<DownloadTask>, u: Table<DownloadTask>, e: string)
    requires Covers(tasks, t) && Covers(tasks, u)
    requires forall x | x in t && x in u :: t[x].entry == u[x].entry
    ensures EntryPresent(tasks, t, e) == EntryPresent(tasks, u, e)
  {
  }

  lemma {:induction false} WithoutIdsKeeps(tasks: seq<DownloadTask>, t: Table<DownloadTask>, ids: set<string>)
    requires Covers(tasks, t)
    ensures forall o :: o in Elements(WithoutIds(tasks, t, ids)) <==> o in Elements(tasks) && t[o].id !in ids
  {
    if tasks != [] {
      WithoutIdsKeeps(tasks[1..], t, ids);
      var rest := WithoutIds(tasks[1..], t, ids);
      assert WithoutIds(tasks, t, ids) == if t[tasks[0]].id in ids then rest else [tasks[0]] + rest;
      ElementsOfCons(tasks[0], tasks[1..]);
      ElementsOfCons(tasks[0], rest);
      assert [tasks[0]] + tasks[1..] == tasks;
    }
  }

  lemma ElementsOfCons(first: DownloadTask, rest: seq<DownloadTask>)
    ensures Elements([first] + rest) == {first} + Elements(rest)
  {
    var all := [first] + rest;
    assert all[0] == first && forall i | 0 <= i < |rest| :: all[i + 1] == rest[i];
  }

  lemma {:induction false} WithoutIdsAnyView(tasks: seq<DownloadTask>, t: Table<DownloadTask>,
                                             u: Table<DownloadTask>, ids: set<string>)
    requires Covers(tasks, t) && Covers(tasks, u)
    requires forall x | x in t && x in u :: t[x].id == u[x].id
    ensures WithoutIds(tasks, t, ids) == WithoutIds(tasks, u, ids)
  {
    if tasks != [] { WithoutIdsAnyView(tasks[1..], t, u, ids); }
  }
}
