/** Lists that keep some slots of another list, in order. */
module Slots {

  /** `at` names slots of a list of length `n` from left to right. */
  ghost predicate Ascending(at: seq<nat>, n: nat) {
    && (forall k | 0 <= k < |at| :: at[k] < n)
    && forall k, l | 0 <= k < l < |at| :: at[k] < at[l]
  }

  ghost predicate Picks<T>(items: seq<T>, at: seq<nat>, kept: seq<T>) {
    |at| == |kept| && forall k | 0 <= k < |at| :: at[k] < |items| && kept[k] == items[at[k]]
  }

  ghost predicate Names(at: seq<nat>, n: nat, stays: nat -> bool) { forall i: nat | i < n :: i in at <==> stays(i) }

  /** `kept` is the list at exactly those slots that satisfy `stays`, in order. */
  ghost predicate KeepsSlots<T>(items: seq<T>, kept: seq<T>, stays: nat -> bool, at: seq<nat>) {
    Ascending(at, |items|) && Picks(items, at, kept) && Names(at, |items|, stays)
  }

  ghost function Shifted(at: seq<nat>): (r: seq<nat>)
    ensures |r| == |at| && forall k | 0 <= k < |at| :: r[k] == at[k] + 1
  {
    seq(|at|, k requires 0 <= k < |at| => at[k] + 1)
  }

  lemma ShiftedMembers(at: seq<nat>, i: nat)
    ensures i in Shifted(at) <==> i > 0 && i - 1 in at
  {
    if i > 0 && i - 1 in at {
      var k :| 0 <= k < |at| && at[k] == i - 1;
      assert Shifted(at)[k] == i;
    }
  }

  lemma ShiftedAscends(at: seq<nat>, n: nat)
    requires Ascending(at, n)
    ensures Ascending(Shifted(at), n + 1) && Ascending([0] + Shifted(at), n + 1)
  {
    hide Shifted;
    var all := [0] + Shifted(at);
    forall k, l | 0 <= k < l < |all| ensures all[k] < all[l] {
      assert all[l] == at[l - 1] + 1;
      assert k > 0 ==> all[k] == at[k - 1] + 1;
    }
  }

  lemma ShiftedPicks<T>(items: seq<T>, at: seq<nat>, rest: seq<T>)
    requires items != [] && Picks(items[1..], at, rest)
    ensures Picks(items, Shifted(at), rest) && Picks(items, [0] + Shifted(at), [items[0]] + rest)
  {
    hide Shifted;
    forall k | 0 <= k < |at| ensures Shifted(at)[k] < |items| && rest[k] == items[Shifted(at)[k]] {
      assert rest[k] == items[1..][at[k]];
    }
    var all, kept := [0] + Shifted(at), [items[0]] + rest;
    forall k | 0 <= k < |all| ensures all[k] < |items| && kept[k] == items[all[k]] {
      assert k > 0 ==> all[k] == Shifted(at)[k - 1] && kept[k] == rest[k - 1];
    }
  }

  /** `tail` is `stays` one slot on. */
  ghost predicate Behind(tail: nat -> bool, stays: nat -> bool, n: nat) {
    forall i: nat | i < n :: tail(i) == stays(i + 1)
  }

  lemma ShiftedNames(at: seq<nat>, n: nat, stays: nat -> bool, tail: nat -> bool)
    requires Names(at, n, tail) && Behind(tail, stays, n)
    ensures Names(if stays(0) then [0] + Shifted(at) else Shifted(at), n + 1, stays)
  {
    forall i: nat | i < n + 1 ensures i in (if stays(0) then [0] + Shifted(at) else Shifted(at)) <==> stays(i) {
      ShiftedMembers(at, i);
      assert i > 0 ==> (i - 1 in at <==> tail(i - 1));
    }
  }

  /** From the tail of the list to the whole: the head stays or not. */
  lemma {:induction false} KeepsSlotsOfCons<T>(items: seq<T>, rest: seq<T>, stays: nat -> bool, tail: nat -> bool,
                                               at: seq<nat>) returns (all: seq<nat>)
    requires items != [] && KeepsSlots(items[1..], rest, tail, at) && Behind(tail, stays, |items| - 1)
    ensures KeepsSlots(items, (if stays(0) then [items[0]] else []) + rest, stays, all)
  {
    hide Ascending, Picks, Names, Shifted, Behind;
    ShiftedAscends(at, |items| - 1);
    ShiftedPicks(items, at, rest);
    ShiftedNames(at, |items| - 1, stays, tail);
    if stays(0) {
      all := [0] + Shifted(at);
    } else {
      all := Shifted(at);
      assert [] + rest == rest;
    }
  }

  lemma {:induction false} AllStay<T>(items: seq<T>, stays: nat -> bool) returns (at: seq<nat>)
    requires forall i: nat | i < |items| :: stays(i)
    ensures KeepsSlots(items, items, stays, at)
  {
    at := seq(|items|, i => i);
    forall i: nat | i < |items| ensures i in at {
      assert at[i] == i;
    }
  }

  lemma SameSlots<T>(items: seq<T>, kept: seq<T>, stays: nat -> bool, others: nat -> bool, at: seq<nat>)
    requires KeepsSlots(items, kept, stays, at) && forall i: nat | i < |items| :: stays(i) == others(i)
    ensures KeepsSlots(items, kept, others, at)
  {
  }
}
