/** What submissions, removals and failures come to, in the fields of the tasks and the order of the list. */
module PoolOutcomes {
  import opened PoolSpec
  import opened PoolRound
  import opened Slots

  // ---------------------------------------------------------------------------------------
  // Removal

  /** Removal by id keeps exactly the slots with other ids, in order. */
  lemma {:induction false} WithoutIdsIs<Id>(tasks: seq<Id>, t: Table<Id>, ids: set<string>) returns (at: seq<nat>)
    requires Covers(tasks, t)
    ensures KeepsSlots(tasks, WithoutIds(tasks, t, ids), i => 0 <= i < |tasks| && t[tasks[i]].id !in ids, at)
  {
    if tasks == [] {
      at := [];
    } else {
      var tail := i => 0 <= i < |tasks[1..]| && t[tasks[1..][i]].id !in ids;
      var rest := WithoutIdsIs(tasks[1..], t, ids);
      at := KeepsSlotsOfCons(tasks, WithoutIds(tasks[1..], t, ids),
                             i => 0 <= i < |tasks| && t[tasks[i]].id !in ids, tail, rest);
    }
  }

  lemma {:induction false} WithoutEntryIs<Id>(tasks: seq<Id>, t: Table<Id>, entry: string) returns (at: seq<nat>)
    requires Covers(tasks, t)
    ensures KeepsSlots(tasks, WithoutEntry(tasks, t, entry), i => 0 <= i < |tasks| && t[tasks[i]].entry != entry, at)
  {
    if tasks == [] {
      at := [];
    } else {
      var tail := i => 0 <= i < |tasks[1..]| && t[tasks[1..][i]].entry != entry;
      var rest := WithoutEntryIs(tasks[1..], t, entry);
      at := KeepsSlotsOfCons(tasks, WithoutEntry(tasks[1..], t, entry),
                             i => 0 <= i < |tasks| && t[tasks[i]].entry != entry, tail, rest);
    }
  }

  // ---------------------------------------------------------------------------------------
  // Submission

  ghost predicate Outranks<Id>(tasks: seq<Id>, t: Table<Id>, id: Id)
    requires Covers(tasks, t) && id in t
  {
    exists i :: 0 <= i < |tasks| && t[tasks[i]].entry == t[id].entry && t[tasks[i]].priority < t[id].priority
  }

  /** The list after an undisturbed submission: the tasks of the entry leave when one of them has a lower
      priority; the others stay in order; and the newcomer comes last if no task of its entry is left. */
  lemma {:induction false} SubmitIs<Id>(tasks: seq<Id>, t: Table<Id>, id: Id) returns (at: seq<nat>)
    requires Covers(tasks, t) && id in t
    ensures var r, outranks := Submit(tasks, t, id), Outranks(tasks, t, id);
            var alone := outranks || forall i | 0 <= i < |tasks| :: t[tasks[i]].entry != t[id].entry;
            var n := if alone then |r| - 1 else |r|;
            && n >= 0 && (alone ==> r[n] == id)
            && KeepsSlots(tasks, r[..n], i => 0 <= i < |tasks| && (outranks ==> t[tasks[i]].entry != t[id].entry), at)
  {
    var r, outranks, entry := Submit(tasks, t, id), Outranks(tasks, t, id), t[id].entry;
    var stays := i => 0 <= i < |tasks| && (outranks ==> t[tasks[i]].entry != entry);
    assert outranks <==> Outranked(tasks, t, t[id]);
    var kept := SubmitReplace(tasks, t, id);
    assert (kept + [id])[..|kept|] == kept && r[..|r|] == r;
    if outranks {
      at := WithoutEntryIs(tasks, t, entry);
      var free := i => 0 <= i < |tasks| && t[tasks[i]].entry != entry;
      forall k | 0 <= k < |kept| ensures t[kept[k]].entry != entry {
        assert at[k] in at && free(at[k]);
      }
      SameSlots(tasks, kept, free, stays, at);
    } else {
      at := AllStay(tasks, stays);
    }
    hide KeepsSlots;
  }

  /** And the tasks that leave lose their tokens; nothing else changes. */
  lemma SubmitTokens<Id>(tasks: seq<Id>, t: Table<Id>, id: Id, x: Id)
    requires Covers(tasks, t) && id in t && x in t
    ensures SubmitTable(tasks, t, id)[x] ==
            if Outranks(tasks, t, id) && x in tasks && t[x].entry == t[id].entry then t[x].(hasToken := false) else t[x]
  {
    assert Outranks(tasks, t, id) <==> Outranked(tasks, t, t[id]);
    PresentMeansListed(tasks, t, t[id].entry);
    if x in tasks && t[x].entry == t[id].entry {
      var i :| 0 <= i < |tasks| && tasks[i] == x;
      ListedIfEntry(tasks, t, t[id].entry, i);
    }
  }

  // ---------------------------------------------------------------------------------------
  // Retries

  function Failures(info: TaskInfo, n: nat): TaskInfo {
    if n == 0 then info else FailedAttempt(Failures(info, n - 1))
  }

  /** Failing again and again without a claim in between: as many failures as there are retries leave the
      task Idle, the next one is final; a cancelled task stays as it is. */
  lemma {:induction false} FailuresUseRetries(info: TaskInfo, n: nat)
    requires n <= info.retryTimes
    ensures Failures(info, n) ==
            if n == 0 || info.status == Cancelled then info
            else info.(status := Idle, retryTimes := info.retryTimes - n)
    ensures n == info.retryTimes && info.status != Cancelled ==>
              Failures(info, n + 1) == info.(status := Failed, retryTimes := 0)
  {
    if n > 0 {
      FailuresUseRetries(info, n - 1);
    }
  }

  /** Claimed by a round, then failing. */
  function Tried(info: TaskInfo): TaskInfo { if info.Claimable() then FailedAttempt(Claimed(info)) else info }

  function TriedTimes(info: TaskInfo, n: nat): TaskInfo {
    if n == 0 then info else Tried(TriedTimes(info, n - 1))
  }

  /** A claimed download that fails is failed for good exactly when it was claimed from a pause without
      retries left. */
  lemma FailsForGoodExactly(info: TaskInfo)
    requires (info.status == Idle || info.status == Paused) && info.retryTimes >= 0
    ensures Tried(info).status == Failed <==> info.status == Paused && info.retryTimes == 0
    ensures Tried(info).status != Failed ==> Tried(info).status == Idle
  {
  }

  /** So retries bound nothing: rounds refill them, and a task that fails every time goes round for ever,
      with 2, 1 and 0 retries in turn once the first ones are used up. */
  lemma {:induction false} RetriesNeverRunOut(info: TaskInfo, n: nat)
    requires info.status == Idle && info.retryTimes >= 0
    ensures TriedTimes(info, n) ==
            info.(retryTimes := if n <= info.retryTimes then info.retryTimes - n else 2 - (n - info.retryTimes - 1) % 3)
  {
    if n > 0 {
      RetriesNeverRunOut(info, n - 1);
    }
  }
}
