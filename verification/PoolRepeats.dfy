/** What a task listed in several slots does to a round.  The list holds shared handles, and racing
    submissions may add one twice; three promises then hold for every state exactly on certain
    lists. */
module PoolRepeats {
  import opened Wrappers
  import opened PoolSpec
  import opened PoolRound

  // ---------------------------------------------------------------------------------------
  // The promises, for every table that leaves the list in order and every pool size

  ghost predicate Ordered<Id>(s: seq<Id>, t: Table<Id>) { Covers(s, t) && SortByPriority(s, t) == s }

  ghost predicate Inverts<Id>(s: seq<Id>, t: Table<Id>, poolSize: nat, i: nat, j: nat)
    requires Ordered(s, t)
  {
    var r := RoundTable(s, t, poolSize);
    i < j < |s| && Waiting(s, r, i) && r[s[j]].status == Downloading
  }

  ghost predicate NeverInverts<Id(!new)>(s: seq<Id>) {
    forall t: Table<Id>, poolSize: nat, i: nat, j: nat | Ordered(s, t) :: !Inverts(s, t, poolSize, i, j)
  }

  /** Fewer than `poolSize` tasks are Downloading only if no task is left waiting. */
  ghost predicate Conserved<Id>(s: seq<Id>, t: Table<Id>, poolSize: nat)
    requires Ordered(s, t)
  {
    var r := RoundTable(s, t, poolSize);
    |DownloadingTasks(s, r)| < poolSize ==> forall i: nat | i < |s| :: !Waiting(s, r, i)
  }

  ghost predicate AlwaysConserves<Id(!new)>(s: seq<Id>) {
    forall t: Table<Id>, poolSize: nat | Ordered(s, t) :: Conserved(s, t, poolSize)
  }

  /** The code's own count, slot by slot, stays within the pool size. */
  ghost predicate SlotsWithin<Id>(s: seq<Id>, t: Table<Id>, poolSize: nat)
    requires Ordered(s, t)
  {
    |DownloadingSlots(s, RoundTable(s, t, poolSize))| <= poolSize
  }

  ghost predicate SlotsAlwaysWithin<Id(!new)>(s: seq<Id>) {
    forall t: Table<Id>, poolSize: nat | Ordered(s, t) :: SlotsWithin(s, t, poolSize)
  }

  // ---------------------------------------------------------------------------------------
  // A state in which one claim fills the pool

  ghost function SlotsOf<Id>(s: seq<Id>, x: Id): set<nat> { set i: nat | i < |s| && s[i] == x }

  /** `x` and `w` are idle, with entries of their own; all else is done. */
  function TwoIdle<Id(==)>(s: seq<Id>, x: Id, w: Id): Table<Id> {
    map id | id in Elements(s) ::
      if id == x then TaskInfo("x", "x", 1, Idle, 0, false)
      else if id == w then TaskInfo("w", "w", 1, Idle, 0, false)
      else TaskInfo("", "", 1, Completed, 0, false)
  }

  lemma {:induction false} PreemptNothing<Id>(s: seq<Id>, t: Table<Id>, k: nat)
    requires Covers(s, t) && forall i | 0 <= i < |s| :: t[s[i]].status != Downloading
    ensures PreemptFrom(s, t, k) == t
    decreases |s| - k
  {
    if k < |s| {
      PreemptNothing(s, t, k + 1);
    }
  }

  lemma {:induction false} SkipDone<Id>(s: seq<Id>, t: Table<Id>, poolSize: nat, k: nat, a: nat)
    requires Covers(s, t) && k <= a <= |s| && poolSize > 0
    requires forall i | 0 <= i < |s| :: t[s[i]].status != Downloading
    requires forall i | 0 <= i < a :: !t[s[i]].Claimable()
    ensures ClaimFrom(s, s, t, poolSize, k) == ClaimFrom(s, s, t, poolSize, a)
    decreases a - k
  {
    assert DownloadingSlots(s, t) == {};
    if k < a {
      assert ClaimOne(s, t, s[k]) == t;
      SkipDone(s, t, poolSize, k + 1, a);
    }
  }

  lemma SlotExists<Id>(s: seq<Id>, x: Id, a: nat)
    requires a < |s| && s[a] == x
    ensures |SlotsOf(s, x)| >= 1
  {
    assert a in SlotsOf(s, x);
  }

  lemma TwoIdleFacts<Id>(s: seq<Id>, x: Id, w: Id)
    ensures var t := TwoIdle(s, x, w);
            && Covers(s, t)
            && (forall id | id in t :: t[id].priority == 1 && t[id].status != Downloading)
            && (forall id | id in t :: t[id].Claimable() <==> id == x || id == w)
  {
    assert forall i | 0 <= i < |s| :: s[i] in Elements(s);
  }

  /** With nothing downloading, claiming the first task that can be claimed makes all its slots
      Downloading; when they fill the pool, nothing else is claimed. */
  lemma {:induction false} ClaimAlone<Id>(s: seq<Id>, t: Table<Id>, a: nat, poolSize: nat)
    requires Covers(s, t) && a < |s| && t[s[a]].Claimable()
    requires forall id | id in t :: t[id].status != Downloading
    requires forall i | 0 <= i < a :: !t[s[i]].Claimable()
    requires 0 < poolSize <= |SlotsOf(s, s[a])|
    ensures ClaimFrom(s, s, t, poolSize, 0) == t[s[a] := Claimed(t[s[a]])]
    ensures DownloadingSlots(s, t[s[a] := Claimed(t[s[a]])]) == SlotsOf(s, s[a])
  {
    var x := s[a];
    var r := t[x := Claimed(t[x])];
    SkipDone(s, t, poolSize, 0, a);
    assert DownloadingSlots(s, t) == {};
    assert ClaimOne(s, t, x) == r;
    assert DownloadingSlots(s, r) == SlotsOf(s, x);
    assert ClaimFrom(s, s, r, poolSize, a + 1) == r;
  }

  /** Slot `a` is the first of `x`, and `w` does not come before it: the round claims `x` and stops. */
  lemma {:induction false} OneClaimFills<Id>(s: seq<Id>, a: nat, w: Id, poolSize: nat)
    requires a < |s| && s[a] !in s[..a] && w !in s[..a]
    requires 0 < poolSize <= |SlotsOf(s, s[a])|
    ensures var t := TwoIdle(s, s[a], w);
            && Ordered(s, t)
            && RoundTable(s, t, poolSize) == t[s[a] := Claimed(t[s[a]])]
            && DownloadingSlots(s, RoundTable(s, t, poolSize)) == SlotsOf(s, s[a])
  {
    hide TwoIdle, SortByPriority, ClaimFrom, PreemptFrom, DownloadingSlots, SlotsOf;
    var t := TwoIdle(s, s[a], w);
    TwoIdleFacts(s, s[a], w);
    SortedAlready(s, t);
    PreemptNothing(s, t, poolSize);
    forall i | 0 <= i < a ensures !t[s[i]].Claimable() {
      assert s[i] in s[..a];
    }
    ClaimAlone(s, t, a, poolSize);
  }

  /** In that state `w` waits, at its first slot `c`, while `x` alone downloads. */
  lemma {:induction false} OtherWaits<Id>(s: seq<Id>, a: nat, c: nat) returns (t: Table<Id>, poolSize: nat)
    requires a < c < |s| && s[a] !in s[..a] && s[c] !in s[..c]
    ensures poolSize == |SlotsOf(s, s[a])| && Ordered(s, t)
    ensures var r := RoundTable(s, t, poolSize);
            Waiting(s, r, c) && r[s[a]].status == Downloading && DownloadingTasks(s, r) == {s[a]}
  {
    var x, w := s[a], s[c];
    assert x in s[..c];
    forall i | 0 <= i < a ensures s[i] != w {
      assert s[i] == s[..c][i];
    }
    t, poolSize := TwoIdle(s, x, w), |SlotsOf(s, x)|;
    SlotExists(s, x, a);
    OneClaimFills(s, a, w, poolSize);
    var r := RoundTable(s, t, poolSize);
    assert r[x].status == Downloading && forall id | id in r && id != x :: r[id].status != Downloading;
    assert r[w].entry == "w" && r[x].entry == "x" && "w"[0] != "x"[0];
  }

  lemma {:induction false} FirstSlot<Id>(s: seq<Id>, i: nat) returns (f: nat)
    requires i < |s|
    ensures f <= i && s[f] == s[i] && s[f] !in s[..f]
  {
    if s[i] in s[..i] {
      var k :| 0 <= k < i && s[k] == s[i];
      f := FirstSlot(s, k);
    } else {
      f := i;
    }
  }

  // ---------------------------------------------------------------------------------------
  // Priority inversion

  /** No table and no pool size give an inversion exactly when the slots of each task stand side by
      side. */
  lemma NeverInvertsExactly<Id(!new)>(s: seq<Id>)
    ensures NeverInverts(s) <==> SideBySide(s)
  {
    if SideBySide(s) {
      forall t: Table<Id>, poolSize: nat, i: nat, j: nat | Ordered(s, t) ensures !Inverts(s, t, poolSize, i, j) {
        if i < j < |s| && Waiting(s, RoundTable(s, t, poolSize), i) {
          NoPriorityInversion(s, t, poolSize, i, j);
        }
      }
    } else {
      var a, b, c :| 0 <= a < b < c < |s| && s[a] == s[c] && s[b] != s[a];
      var fa := FirstSlot(s, a);
      var fb := FirstSlot(s, b);
      if fa < fb {
        var t, poolSize := OtherWaits(s, fa, fb);
        assert Inverts(s, t, poolSize, fb, c);
      } else {
        var t, poolSize := OtherWaits(s, fb, fa);
        assert Inverts(s, t, poolSize, fa, b);
      }
    }
  }

  // ---------------------------------------------------------------------------------------
  // Work conservation

  /** A task listed twice is not followed by the first slot of another. */
  ghost predicate OnlyLastRepeats<Id>(s: seq<Id>) {
    forall a, c | 0 <= a < c < |s| && s[c] !in s[..c] :: Once(s, a)
  }

  ghost predicate Once<Id>(s: seq<Id>, a: nat)
    requires a < |s|
  {
    forall b | 0 <= b < |s| && s[b] == s[a] :: b == a
  }

  lemma {:induction false} SlotsAreTasks<Id>(tasks: seq<Id>, slots: set<nat>, ids: set<Id>)
    requires forall i | i in slots :: i < |tasks| && Once(tasks, i)
    requires ids == set i | i in slots :: tasks[i]
    ensures |ids| == |slots|
    decreases slots
  {
    if slots == {} {
      assert ids == {};
    } else {
      var i :| i in slots;
      var rest := slots - {i};
      var restIds := set j | j in rest :: tasks[j];
      SlotsAreTasks(tasks, rest, restIds);
      assert ids == restIds + {tasks[i]};
      assert tasks[i] !in restIds;
    }
  }

  /** A downloading task in two slots, with a task waiting at slot `f`, fills the whole tail of the
      list, and survived pre-emption there. */
  lemma {:induction false} RepeatedIsTail<Id>(s: seq<Id>, t1: Table<Id>, r: Table<Id>, poolSize: nat, stop: nat,
                                              f: nat, d: nat)
    requires Covers(s, t1) && OnlyLastRepeats(s) && ClaimProgress(s, t1, r, stop)
    requires forall k | poolSize <= k < |s| :: t1[s[k]].status != Downloading
    requires stop <= f < |s| && s[f] !in s[..f] && Waiting(s, r, f)
    requires d in DownloadingSlots(s, r) && !Once(s, d)
    ensures |s| <= poolSize
  {
    var g := FirstSlot(s, d);
    assert !Once(s, g);
    assert g > f;
    forall k | 0 <= k < g ensures s[k] != s[d] {
      assert s[k] == s[..g][k];
    }
    assert r[s[d]] == t1[s[d]];
    var last := |s| - 1;
    var h := FirstSlot(s, last);
    assert h <= g;
    assert h < g ==> Once(s, h);
    assert s[last] == s[d];
  }

  /** The counting step of conservation. */
  lemma {:induction false} ConservedAt<Id>(s: seq<Id>, t1: Table<Id>, r: Table<Id>, poolSize: nat, stop: nat, i: nat)
    requires Covers(s, t1) && OnlyLastRepeats(s) && ClaimProgress(s, t1, r, stop)
    requires forall k | poolSize <= k < |s| :: t1[s[k]].status != Downloading
    requires stop >= |s| || |DownloadingSlots(s, r)| >= poolSize
    requires i < |s| && Waiting(s, r, i)
    ensures |DownloadingTasks(s, r)| >= poolSize
  {
    var slots := DownloadingSlots(s, r);
    var f := FirstSlot(s, i);
    assert Waiting(s, r, f) && stop <= f;
    if d :| d in slots && !Once(s, d) {
      RepeatedIsTail(s, t1, r, poolSize, stop, f, d);
      var all := Below(|s|);
      assert f in all && f !in slots && slots <= all - {f};
      SmallerSet(slots, all - {f});
    }
    assert DownloadingTasks(s, r) == set k | k in slots :: s[k];
    if forall d | d in slots :: Once(s, d) {
      SlotsAreTasks(s, slots, DownloadingTasks(s, r));
    }
  }

  /** On a list whose only repeated task, if any, is the last one, fewer than `poolSize` tasks are
      Downloading after a round only if none is left waiting. */
  lemma {:induction false} RoundConservesWork<Id>(tasks: seq<Id>, t: Table<Id>, poolSize: nat)
    requires Covers(tasks, t) && OnlyLastRepeats(SortByPriority(tasks, t))
    ensures var sorted, r := SortByPriority(tasks, t), RoundTable(tasks, t, poolSize);
            |DownloadingTasks(sorted, r)| < poolSize ==> forall i: nat | i < |sorted| :: !Waiting(sorted, r, i)
  {
    var sorted, r := SortByPriority(tasks, t), RoundTable(tasks, t, poolSize);
    var t1 := PreemptFrom(sorted, t, poolSize);
    OverflowPaused(sorted, t, poolSize);
    var stop := ClaimLoopOutcome(sorted, t1, t1, poolSize, 0);
    forall i: nat | i < |sorted| && Waiting(sorted, r, i) ensures |DownloadingTasks(sorted, r)| >= poolSize {
      ConservedAt(sorted, t1, r, poolSize, stop, i);
    }
  }

  /** Work is conserved for every table and pool size exactly on those lists. */
  lemma WorkConservedExactly<Id(!new)>(s: seq<Id>)
    ensures AlwaysConserves(s) <==> OnlyLastRepeats(s)
  {
    if OnlyLastRepeats(s) {
      forall t: Table<Id>, poolSize: nat | Ordered(s, t) ensures Conserved(s, t, poolSize) {
        RoundConservesWork(s, t, poolSize);
      }
    } else {
      var a, c :| 0 <= a < c < |s| && s[c] !in s[..c] && !Once(s, a);
      var f := FirstSlot(s, a);
      var t, poolSize := OtherWaits(s, f, c);
      RepeatedHasTwoSlots(s, a);
      assert !Conserved(s, t, poolSize);
    }
  }

  lemma RepeatedHasTwoSlots<Id>(s: seq<Id>, a: nat)
    requires a < |s| && !Once(s, a)
    ensures |SlotsOf(s, s[a])| >= 2
  {
    var b :| 0 <= b < |s| && s[b] == s[a] && b != a;
    SmallerSet({a, b}, SlotsOf(s, s[a]));
  }

  // ---------------------------------------------------------------------------------------
  // The slot count

  /** The number of slots whose task is Downloading, which the code compares with the pool size, stays
      within it for every table and pool size exactly when no task is listed twice. */
  lemma SlotsWithinExactly<Id(!new)>(s: seq<Id>)
    ensures SlotsAlwaysWithin(s) <==> NoRepeats(s)
  {
    if NoRepeats(s) {
      forall t: Table<Id>, poolSize: nat | Ordered(s, t) ensures SlotsWithin(s, t, poolSize) {
        var slots := DownloadingSlots(s, RoundTable(s, t, poolSize));
        RoundRestoresCapacity(s, t, poolSize);
        assert DownloadingTasks(s, RoundTable(s, t, poolSize)) == set i | i in slots :: s[i];
        SlotsAreTasks(s, slots, DownloadingTasks(s, RoundTable(s, t, poolSize)));
      }
    } else {
      var a, b :| 0 <= a < b < |s| && s[a] == s[b];
      var f := FirstSlot(s, a);
      assert !Once(s, a);
      RepeatedHasTwoSlots(s, a);
      OneClaimFills(s, f, s[f], 1);
      assert !SlotsWithin(s, TwoIdle(s, s[f], s[f]), 1);
    }
  }

  /** The smallest input: task 0 in slots 0 and 2, task 1 between them, two places.  Claiming task 0
      ends the round: task 1 waits before a slot that downloads, with one task downloading. */
  lemma RepeatedTaskInverts() returns (tasks: seq<nat>, t: Table<nat>)
    ensures tasks == [0, 1, 0] && Ordered(tasks, t) && Inverts(tasks, t, 2, 1, 2)
    ensures |DownloadingTasks(tasks, RoundTable(tasks, t, 2))| == 1 && !Conserved(tasks, t, 2)
  {
    tasks := [0, 1, 0];
    var poolSize;
    t, poolSize := OtherWaits(tasks, 0, 1);
    assert SlotsOf(tasks, 0) == {0, 2};
  }
}
