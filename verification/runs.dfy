/** Sequences of calls on one group: dispatching a batch of keys with and
    without releasing each slot after use, and replaying an arbitrary
    sequence of Choose and Release calls, panics included. */
module Runs {
  import opened Uint64
  import opened Partialkey
  import opened Load

  /** A group after a batch of keys, and the slot each key was sent to. */
  datatype Run = Run(group: Group, picks: seq<int>)

  /** How many times `slot` occurs among `picks`. */
  function Count(picks: seq<int>, slot: int): nat
  {
    if |picks| == 0 then 0
    else Count(picks[..|picks| - 1], slot) + (if picks[|picks| - 1] == slot then 1 else 0)
  }

  /** Choose a slot for each key in turn, never releasing. */
  function ChooseEach(g: Group, hash: Hash, keys: seq<Key>): (r: Run)
    requires |g.slots| > 0
    ensures |r.group.slots| == |g.slots|
    ensures |r.picks| == |keys|
    ensures forall j :: 0 <= j < |r.picks| ==> 0 <= r.picks[j] < |g.slots|
    decreases |keys|
  {
    if |keys| == 0 then Run(g, [])
    else
      var before := ChooseEach(g, hash, keys[..|keys| - 1]);
      var c := Choose(before.group, hash, keys[|keys| - 1]);
      Run(c.group, before.picks + [c.slot])
  }

  /** Choose a slot for each key in turn and release it straight away. */
  function ChooseAndReleaseEach(g: Group, hash: Hash, keys: seq<Key>): (r: Run)
    requires |g.slots| > 0
    ensures |r.group.slots| == |g.slots|
    ensures |r.picks| == |keys|
    ensures forall j :: 0 <= j < |r.picks| ==> 0 <= r.picks[j] < |g.slots|
    decreases |keys|
  {
    if |keys| == 0 then Run(g, [])
    else
      var before := ChooseAndReleaseEach(g, hash, keys[..|keys| - 1]);
      var c := Choose(before.group, hash, keys[|keys| - 1]);
      Run(Release(c.group, c.slot), before.picks + [c.slot])
  }

  /** Without releases and without wrap-around, each counter grows by the
      number of keys sent to its slot. */
  lemma {:induction false} ChooseEachTallies(g: Group, hash: Hash, keys: seq<Key>)
    requires |g.slots| > 0
    requires Total(g.slots) + |keys| <= MAX
    ensures var r := ChooseEach(g, hash, keys);
            forall i :: 0 <= i < |g.slots| ==> r.group.slots[i] == g.slots[i] + Count(r.picks, i)
    ensures Total(ChooseEach(g, hash, keys).group.slots) == Total(g.slots) + |keys|
    decreases |keys|
  {
    if |keys| > 0 {
      var prefix := keys[..|keys| - 1];
      var before := ChooseEach(g, hash, prefix);
      ChooseEachTallies(g, hash, prefix);
      SmallTotalNoneSaturated(before.group);
      ChooseAddsOne(before.group, hash, keys[|keys| - 1]);
      var r := ChooseEach(g, hash, keys);
      assert r.picks[..|r.picks| - 1] == before.picks;
    }
  }

  /** From a new group, M keys leave a total load of exactly M. */
  lemma ChooseEachFromNewTotal(n: nat, hash: Hash, keys: seq<Key>)
    requires n > 0
    requires |keys| <= MAX
    ensures Total(ChooseEach(New(n), hash, keys).group.slots) == |keys|
  {
    TotalNew(n);
    ChooseEachTallies(New(n), hash, keys);
  }

  /** Releasing every chosen slot at once leaves the group as it was, and
      so every key is placed as if it were the only one. */
  lemma {:induction false} ChooseAndReleaseEachRestores(g: Group, hash: Hash, keys: seq<Key>)
    requires |g.slots| > 0
    ensures ChooseAndReleaseEach(g, hash, keys).group == g
    ensures forall j :: 0 <= j < |keys| ==>
              ChooseAndReleaseEach(g, hash, keys).picks[j] == Choose(g, hash, keys[j]).slot
    decreases |keys|
  {
    if |keys| > 0 {
      var prefix := keys[..|keys| - 1];
      var before := ChooseAndReleaseEach(g, hash, prefix);
      ChooseAndReleaseEachRestores(g, hash, prefix);
      var c := Choose(g, hash, keys[|keys| - 1]);
      ReleaseUndoesChoose(g, hash, keys[|keys| - 1]);
      var r := ChooseAndReleaseEach(g, hash, keys);
      assert r == Run(Release(c.group, c.slot), before.picks + [c.slot]);
      forall j | 0 <= j < |keys|
        ensures r.picks[j] == Choose(g, hash, keys[j]).slot
      {
        if j < |keys| - 1 {
          assert keys[j] == prefix[j];
          assert r.picks[j] == before.picks[j];
        }
      }
    }
  }

  /** One call on the group, as a caller issues it. */
  datatype Call = ChooseCall(key: Key) | ReleaseCall(slot: int)

  /** Either the group after every call, or the position of the call
      that panicked. */
  datatype Outcome = Done(group: Group) | Panicked(at: nat)

  /** Whether the Go runtime lets `call` through on a group of `n` slots:
      Choose panics on an empty group (reduction modulo 0), Release on an
      index outside the group. */
  predicate Admits(n: nat, call: Call)
  {
    match call
    case ChooseCall(_) => n > 0
    case ReleaseCall(slot) => 0 <= slot < n
  }

  /** One call applied to a group it admits. */
  function Apply(g: Group, hash: Hash, call: Call): (r: Group)
    requires Admits(|g.slots|, call)
    ensures |r.slots| == |g.slots|
  {
    match call
    case ChooseCall(key) => Choose(g, hash, key).group
    case ReleaseCall(slot) => Release(g, slot)
  }

  /** Replay calls in order, stopping at the first that panics. */
  function Replay(g: Group, hash: Hash, calls: seq<Call>): (r: Outcome)
    ensures r.Done? ==> |r.group.slots| == |g.slots|
    ensures r.Panicked? ==> r.at < |calls| && !Admits(|g.slots|, calls[r.at])
    ensures r.Panicked? ==> forall j :: 0 <= j < r.at ==> Admits(|g.slots|, calls[j])
    ensures r.Done? <==> forall j :: 0 <= j < |calls| ==> Admits(|g.slots|, calls[j])
    decreases |calls|
  {
    if |calls| == 0 then Done(g)
    else
      var prefix := calls[..|calls| - 1];
      assert forall j :: 0 <= j < |prefix| ==> prefix[j] == calls[j];
      match Replay(g, hash, prefix)
      case Panicked(at) => Panicked(at)
      case Done(h) =>
        var call := calls[|calls| - 1];
        if Admits(|h.slots|, call) then Done(Apply(h, hash, call))
        else Panicked(|calls| - 1)
  }

  /** The net load a single call adds: +1 for Choose, -1 for Release. */
  function Net(call: Call): int
  {
    if call.ChooseCall? then 1 else -1
  }

  /** The net load a sequence of calls adds, counted without wrap-around. */
  function NetLoad(calls: seq<Call>): int
  {
    if |calls| == 0 then 0 else NetLoad(calls[..|calls| - 1]) + Net(calls[|calls| - 1])
  }

  /** How a single admitted call wraps a counter: 1 when Choose takes a
      counter from 2^64 - 1 round to 0, -1 when Release takes one from 0
      round to 2^64 - 1, otherwise 0. */
  function Wrap(g: Group, hash: Hash, call: Call): int
    requires Admits(|g.slots|, call)
  {
    match call
    case ChooseCall(key) => if g.slots[Choose(g, hash, key).slot] == MAX then 1 else 0
    case ReleaseCall(slot) => if g.slots[slot] == 0 then -1 else 0
  }

  /** The net number of wraps over a completed sequence of calls. */
  function Wraps(g: Group, hash: Hash, calls: seq<Call>): int
    requires Replay(g, hash, calls).Done?
    decreases |calls|
  {
    if |calls| == 0 then 0
    else
      var prefix := calls[..|calls| - 1];
      Wraps(g, hash, prefix) + Wrap(Replay(g, hash, prefix).group, hash, calls[|calls| - 1])
  }

  /** One admitted call moves the total load by its net load, less 2^64
      for each wrap. */
  lemma ApplyMovesTotal(g: Group, hash: Hash, call: Call)
    requires Admits(|g.slots|, call)
    ensures Total(Apply(g, hash, call).slots)
              == Total(g.slots) + Net(call) - MODULUS * Wrap(g, hash, call)
  {
    match call
    case ChooseCall(key) => ChooseMovesTotal(g, hash, key);
    case ReleaseCall(slot) => ReleaseMovesTotal(g, slot);
  }

  /** Load is conserved over any completed sequence of calls: the total
      moves by the number of Chooses minus the number of Releases, less
      2^64 for each net wrap, so it is exact modulo 2^64. */
  lemma {:induction false} ReplayConservesLoad(g: Group, hash: Hash, calls: seq<Call>)
    requires Replay(g, hash, calls).Done?
    ensures Total(Replay(g, hash, calls).group.slots)
              == Total(g.slots) + NetLoad(calls) - MODULUS * Wraps(g, hash, calls)
    decreases |calls|
  {
    if |calls| > 0 {
      var prefix := calls[..|calls| - 1];
      var call := calls[|calls| - 1];
      var h := Replay(g, hash, prefix).group;
      assert Replay(g, hash, calls) == Done(Apply(h, hash, call));
      ReplayConservesLoad(g, hash, prefix);
      ApplyMovesTotal(h, hash, call);
    }
  }

  /** The slots chosen from a new group and not yet released, one
      occurrence per outstanding Choose. A Release removes one occurrence
      of its slot, if there is one. */
  function InFlight(n: nat, hash: Hash, calls: seq<Call>): (m: multiset<int>)
    requires Replay(New(n), hash, calls).Done?
    ensures forall x | x in m :: 0 <= x < n
    decreases |calls|
  {
    if |calls| == 0 then multiset{}
    else
      var prefix := calls[..|calls| - 1];
      var before := InFlight(n, hash, prefix);
      var h := Replay(New(n), hash, prefix).group;
      match calls[|calls| - 1]
      case ChooseCall(key) => before + multiset{Choose(h, hash, key).slot}
      case ReleaseCall(slot) => before - multiset{slot}
  }

  /** Every Release in the run gives back a slot an earlier, still
      outstanding Choose returned: the caller discipline the package asks
      for, whether the release comes at once or later. */
  predicate Matched(n: nat, hash: Hash, calls: seq<Call>)
    decreases |calls|
  {
    && Replay(New(n), hash, calls).Done?
    && (|calls| == 0 ||
        var prefix := calls[..|calls| - 1];
        && Matched(n, hash, prefix)
        && (calls[|calls| - 1].ReleaseCall? ==>
              calls[|calls| - 1].slot in InFlight(n, hash, prefix)))
  }

  /** A Choose on a group whose counters are the outstanding counts keeps
      them so, without wrapping, while the counts stay below 2^64 - 1. */
  lemma ChooseKeepsCounts(h: Group, hash: Hash, key: Key, before: multiset<int>, bound: nat)
    requires |h.slots| > 0
    requires bound < MAX
    requires forall i :: 0 <= i < |h.slots| ==> h.slots[i] == before[i] <= bound
    ensures var c := Choose(h, hash, key);
            forall i :: 0 <= i < |h.slots| ==>
              c.group.slots[i] == (before + multiset{c.slot})[i] <= bound + 1
    ensures Wrap(h, hash, ChooseCall(key)) == 0
  {
  }

  /** A Release of an outstanding slot on a group whose counters are the
      outstanding counts keeps them so, without wrapping. */
  lemma ReleaseKeepsCounts(h: Group, hash: Hash, slot: int, before: multiset<int>, bound: nat)
    requires 0 <= slot < |h.slots|
    requires slot in before
    requires forall i :: 0 <= i < |h.slots| ==> h.slots[i] == before[i] <= bound
    ensures forall i :: 0 <= i < |h.slots| ==>
              Release(h, slot).slots[i] == (before - multiset{slot})[i] <= bound
    ensures Wrap(h, hash, ReleaseCall(slot)) == 0
  {
  }

  /** Each counter is the number of outstanding Chooses of its slot (at
      most the number of calls), the calls in flight are the net load, and
      no counter has wrapped. */
  predicate CountsAreInFlight(n: nat, hash: Hash, calls: seq<Call>)
    requires Replay(New(n), hash, calls).Done?
  {
    var m := InFlight(n, hash, calls);
    var slots := Replay(New(n), hash, calls).group.slots;
    && (forall i :: 0 <= i < n ==> slots[i] == m[i] <= |calls|)
    && |m| == NetLoad(calls)
    && Wraps(New(n), hash, calls) == 0
  }

  /** One more Choose keeps the counters equal to the outstanding counts. */
  lemma ChooseStepKeepsCounts(n: nat, hash: Hash, prefix: seq<Call>, key: Key)
    requires n > 0
    requires Replay(New(n), hash, prefix).Done?
    requires |prefix| + 1 < MODULUS
    requires CountsAreInFlight(n, hash, prefix)
    ensures Replay(New(n), hash, prefix + [ChooseCall(key)]).Done?
    ensures CountsAreInFlight(n, hash, prefix + [ChooseCall(key)])
  {
    ExtendRun(n, hash, prefix, ChooseCall(key));
    var h := Replay(New(n), hash, prefix).group;
    ChooseKeepsCounts(h, hash, key, InFlight(n, hash, prefix), |prefix|);
  }

  /** One more Release of an outstanding slot keeps the counters equal to
      the outstanding counts. */
  lemma ReleaseStepKeepsCounts(n: nat, hash: Hash, prefix: seq<Call>, slot: int)
    requires 0 <= slot < n
    requires Replay(New(n), hash, prefix).Done?
    requires slot in InFlight(n, hash, prefix)
    requires CountsAreInFlight(n, hash, prefix)
    ensures Replay(New(n), hash, prefix + [ReleaseCall(slot)]).Done?
    ensures CountsAreInFlight(n, hash, prefix + [ReleaseCall(slot)])
  {
    ExtendRun(n, hash, prefix, ReleaseCall(slot));
    var h := Replay(New(n), hash, prefix).group;
    ReleaseKeepsCounts(h, hash, slot, InFlight(n, hash, prefix), |prefix|);
  }

  /** In a matched run from a new group with fewer than 2^64 calls, no
      counter ever wraps: each counter is the number of outstanding
      Chooses of its slot, and the calls in flight are the net load. */
  lemma {:induction false} MatchedCountersAreInFlight(n: nat, hash: Hash, calls: seq<Call>)
    requires Matched(n, hash, calls)
    requires |calls| < MODULUS
    ensures var m := InFlight(n, hash, calls);
            var slots := Replay(New(n), hash, calls).group.slots;
            && (forall i :: 0 <= i < n ==> slots[i] == m[i] <= |calls|)
            && |m| == NetLoad(calls)
            && Wraps(New(n), hash, calls) == 0
    decreases |calls|
  {
    if |calls| > 0 {
      var prefix := calls[..|calls| - 1];
      var call := calls[|calls| - 1];
      assert calls == prefix + [call];
      MatchedCountersAreInFlight(n, hash, prefix);
      assert Admits(n, call);
      match call
      case ChooseCall(key) =>
        ChooseStepKeepsCounts(n, hash, prefix, key);
      case ReleaseCall(slot) =>
        ReleaseStepKeepsCounts(n, hash, prefix, slot);
    }
  }

  /** From a new group, a matched run of fewer than 2^64 calls ends with a
      total load equal to the calls still in flight; a run in which every
      Choose has been released ends at 0. */
  lemma ReplayFromNewTotal(n: nat, hash: Hash, calls: seq<Call>)
    requires Matched(n, hash, calls)
    requires |calls| < MODULUS
    ensures Total(Replay(New(n), hash, calls).group.slots) == NetLoad(calls)
    ensures Total(Replay(New(n), hash, calls).group.slots) == |InFlight(n, hash, calls)|
  {
    TotalNew(n);
    ReplayConservesLoad(New(n), hash, calls);
    MatchedCountersAreInFlight(n, hash, calls);
  }

  /** Appending one admitted call to a completed run: how the outcome, the
      outstanding slots and the matching discipline extend. */
  lemma ExtendRun(n: nat, hash: Hash, calls: seq<Call>, call: Call)
    requires Replay(New(n), hash, calls).Done?
    requires Admits(n, call)
    ensures var h := Replay(New(n), hash, calls).group;
            Replay(New(n), hash, calls + [call]) == Done(Apply(h, hash, call))
    ensures var h := Replay(New(n), hash, calls).group;
            InFlight(n, hash, calls + [call])
              == if call.ChooseCall? then InFlight(n, hash, calls) + multiset{Choose(h, hash, call.key).slot}
                 else InFlight(n, hash, calls) - multiset{call.slot}
    ensures NetLoad(calls + [call]) == NetLoad(calls) + Net(call)
    ensures var h := Replay(New(n), hash, calls).group;
            Wraps(New(n), hash, calls + [call]) == Wraps(New(n), hash, calls) + Wrap(h, hash, call)
    ensures (Matched(n, hash, calls) && (call.ReleaseCall? ==> call.slot in InFlight(n, hash, calls)))
              ==> Matched(n, hash, calls + [call])
  {
    assert (calls + [call])[..|calls|] == calls;
  }

  /** Two keys chosen, then both slots released later (the deferred
      release of the package's goroutine test): the group ends at total 0. */
  lemma DeferredReleaseReturnsToZero(n: nat, hash: Hash, k1: Key, k2: Key)
    requires n > 0
    ensures var c1 := Choose(New(n), hash, k1);
            var c2 := Choose(c1.group, hash, k2);
            var calls := [ChooseCall(k1), ChooseCall(k2), ReleaseCall(c1.slot), ReleaseCall(c2.slot)];
            Replay(New(n), hash, calls).Done? &&
            Total(Replay(New(n), hash, calls).group.slots) == 0
  {
    var c1 := Choose(New(n), hash, k1);
    var c2 := Choose(c1.group, hash, k2);
    var s0: seq<Call> := [];
    assert Matched(n, hash, s0);
    ExtendRun(n, hash, s0, ChooseCall(k1));
    var s1 := s0 + [ChooseCall(k1)];
    ExtendRun(n, hash, s1, ChooseCall(k2));
    var s2 := s1 + [ChooseCall(k2)];
    assert InFlight(n, hash, s2) == multiset{c1.slot, c2.slot};
    ExtendRun(n, hash, s2, ReleaseCall(c1.slot));
    var s3 := s2 + [ReleaseCall(c1.slot)];
    assert InFlight(n, hash, s3) == multiset{c2.slot};
    ExtendRun(n, hash, s3, ReleaseCall(c2.slot));
    var s4 := s3 + [ReleaseCall(c2.slot)];
    assert s4 == [ChooseCall(k1), ChooseCall(k2), ReleaseCall(c1.slot), ReleaseCall(c2.slot)];
    ReplayFromNewTotal(n, hash, s4);
  }
}
