/** The total load a group carries: the sum of its counters, and how
    Choose and Release move it. */
module Load {
  import opened Uint64
  import opened Partialkey

  /** Sum of the counters, as an unbounded integer. */
  function Total(loads: seq<U64>): nat
  {
    if |loads| == 0 then 0 else Total(loads[..|loads| - 1]) + loads[|loads| - 1]
  }

  /** No counter sits at the largest word, so no increment wraps. */
  predicate NoneSaturated(g: Group)
  {
    forall j :: 0 <= j < |g.slots| ==> g.slots[j] < MAX
  }

  /** Overwriting one counter moves the total by the difference. */
  lemma {:induction false} TotalUpdate(loads: seq<U64>, i: int, v: U64)
    requires 0 <= i < |loads|
    ensures Total(loads[i := v]) == Total(loads) - loads[i] + v
    decreases |loads|
  {
    var k := |loads| - 1;
    var u := loads[i := v];
    assert u[..k] == if i == k then loads[..k] else loads[..k][i := v];
    if i < k {
      TotalUpdate(loads[..k], i, v);
    }
  }

  /** Every counter is bounded by the total. */
  lemma {:induction false} LoadBelowTotal(loads: seq<U64>, i: int)
    requires 0 <= i < |loads|
    ensures loads[i] <= Total(loads)
    decreases |loads|
  {
    var k := |loads| - 1;
    if i < k {
      LoadBelowTotal(loads[..k], i);
      assert loads[..k][i] == loads[i];
    }
  }

  /** A total below the largest word rules out a saturated counter. */
  lemma SmallTotalNoneSaturated(g: Group)
    requires Total(g.slots) < MAX
    ensures NoneSaturated(g)
  {
    forall j | 0 <= j < |g.slots|
      ensures g.slots[j] < MAX
    {
      LoadBelowTotal(g.slots, j);
    }
  }

  /** A new group carries no load. */
  lemma {:induction false} TotalNew(n: nat)
    ensures Total(New(n).slots) == 0
  {
    if n > 0 {
      assert New(n).slots[..n - 1] == New(n - 1).slots;
      TotalNew(n - 1);
    }
  }

  /** Choose adds one unit of load, less 2^64 when the chosen counter wraps. */
  lemma ChooseMovesTotal(g: Group, hash: Hash, key: Key)
    requires |g.slots| > 0
    ensures var c := Choose(g, hash, key);
            Total(c.group.slots)
              == Total(g.slots) + 1 - (if g.slots[c.slot] == MAX then MODULUS else 0)
  {
    var c := Choose(g, hash, key);
    assert c.group.slots == g.slots[c.slot := c.group.slots[c.slot]];
    TotalUpdate(g.slots, c.slot, c.group.slots[c.slot]);
  }

  /** Release removes one unit of load, plus 2^64 when the counter was 0. */
  lemma ReleaseMovesTotal(g: Group, slot: int)
    requires 0 <= slot < |g.slots|
    ensures Total(Release(g, slot).slots)
              == Total(g.slots) - 1 + (if g.slots[slot] == 0 then MODULUS else 0)
  {
    var r := Release(g, slot);
    assert r.slots == g.slots[slot := r.slots[slot]];
    TotalUpdate(g.slots, slot, r.slots[slot]);
  }

  /** Unless the chosen counter wraps, Choose adds exactly one unit of load. */
  lemma ChooseAddsOne(g: Group, hash: Hash, key: Key)
    requires |g.slots| > 0
    requires NoneSaturated(g)
    ensures Total(Choose(g, hash, key).group.slots) == Total(g.slots) + 1
  {
    ChooseMovesTotal(g, hash, key);
  }

  /** Unless the released counter is already 0, Release removes exactly one unit. */
  lemma ReleaseRemovesOne(g: Group, slot: int)
    requires 0 <= slot < |g.slots|
    requires g.slots[slot] > 0
    ensures Total(Release(g, slot).slots) == Total(g.slots) - 1
  {
    ReleaseMovesTotal(g, slot);
  }
}
