/** The Partial Key Grouping balancer ("the power of both choices"): a
    fixed array of per-slot load counters, a choice between two hashed
    candidate slots for every key, and a release that gives a unit of
    load back. Each call is one atomic step on an immutable value. */
module Partialkey {
  import opened Uint64

  /** The seeds of the first and the second candidate hash. */
  const FIRST_SEED: U64 := 13
  const SECOND_SEED: U64 := 7

  /** Keys are opaque byte strings. */
  type Key = seq<bv8>

  /** The seeded 64-bit hash (`wyfast.Sum64`); any deterministic function
      of key and seed will do, and nothing below depends on which. */
  type Hash = (Key, U64) -> U64

  /** A balancing group: one load counter per slot. */
  datatype Group = Group(slots: seq<U64>)

  /** The outcome of Choose: the updated group and the chosen slot. */
  datatype Choice = Choice(group: Group, slot: int)

  /** A new group of `n` slots, all unloaded. */
  function New(n: nat): (g: Group)
    ensures |g.slots| == n
    ensures forall i :: 0 <= i < n ==> g.slots[i] == 0
  {
    Group(seq(n, _ => 0))
  }

  /** The candidate slot a hash seed designates for a key among `n` slots. */
  function Candidate(hash: Hash, key: Key, seed: U64, n: nat): (c: int)
    requires n > 0
    ensures 0 <= c < n
  {
    hash(key, seed) % n
  }

  function FirstCandidate(hash: Hash, key: Key, n: nat): (c: int)
    requires n > 0
    ensures 0 <= c < n
  {
    Candidate(hash, key, FIRST_SEED, n)
  }

  function SecondCandidate(hash: Hash, key: Key, n: nat): (c: int)
    requires n > 0
    ensures 0 <= c < n
  {
    Candidate(hash, key, SECOND_SEED, n)
  }

  /** The balancing rule, stated without reference to how Choose computes
      it: slot `i` is one of the two candidates, carries no more load than
      either of them, and is the first candidate whenever the first is not
      strictly more loaded than the second. */
  predicate IsPkgChoice(loads: seq<U64>, first: int, second: int, i: int)
    requires 0 <= first < |loads| && 0 <= second < |loads|
  {
    && (i == first || i == second)
    && 0 <= i < |loads|
    && loads[i] <= loads[first]
    && loads[i] <= loads[second]
    && (loads[first] <= loads[second] ==> i == first)
  }

  /** Choose a slot for `key` and charge it one unit of load. A group with
      no slots is excluded: reducing the hash modulo 0 panics. */
  function Choose(g: Group, hash: Hash, key: Key): (r: Choice)
    requires |g.slots| > 0
    ensures 0 <= r.slot < |g.slots|
    ensures IsPkgChoice(g.slots, FirstCandidate(hash, key, |g.slots|),
                        SecondCandidate(hash, key, |g.slots|), r.slot)
    ensures |r.group.slots| == |g.slots|
    ensures g.slots[r.slot] < MAX ==> r.group.slots[r.slot] == g.slots[r.slot] + 1
    ensures g.slots[r.slot] == MAX ==> r.group.slots[r.slot] == 0
    ensures forall j :: 0 <= j < |g.slots| && j != r.slot ==> r.group.slots[j] == g.slots[j]
  {
    var n := |g.slots|;
    var f := FirstCandidate(hash, key, n);
    var s := SecondCandidate(hash, key, n);
    var i := if g.slots[f] > g.slots[s] then s else f;
    Choice(Group(g.slots[i := Increment(g.slots[i])]), i)
  }

  /** Give back one unit of load on `slot`; an unloaded slot wraps round
      to the largest word. An index outside the group panics. */
  function Release(g: Group, slot: int): (r: Group)
    requires 0 <= slot < |g.slots|
    ensures |r.slots| == |g.slots|
    ensures g.slots[slot] > 0 ==> r.slots[slot] == g.slots[slot] - 1
    ensures g.slots[slot] == 0 ==> r.slots[slot] == MAX
    ensures forall j :: 0 <= j < |g.slots| && j != slot ==> r.slots[j] == g.slots[j]
  {
    Group(g.slots[slot := Decrement(g.slots[slot])])
  }

  /** The balancing rule has exactly one answer, and it is Choose's. */
  lemma PkgChoiceIsUnique(g: Group, hash: Hash, key: Key, i: int)
    requires |g.slots| > 0
    requires IsPkgChoice(g.slots, FirstCandidate(hash, key, |g.slots|),
                         SecondCandidate(hash, key, |g.slots|), i)
    ensures i == Choose(g, hash, key).slot
  {
  }

  /** The candidates depend on the key and the number of slots only, never
      on the loads: when two groups of one size send a key to different
      slots, between them they have used exactly the two candidates. */
  lemma CandidatesIgnoreLoads(g: Group, h: Group, hash: Hash, key: Key)
    requires |g.slots| == |h.slots| > 0
    ensures Choose(g, hash, key).slot != Choose(h, hash, key).slot ==>
              {Choose(g, hash, key).slot, Choose(h, hash, key).slot}
                == {FirstCandidate(hash, key, |g.slots|), SecondCandidate(hash, key, |g.slots|)}
  {
  }

  /** When both hashes land on one slot, that slot is chosen whatever the loads. */
  lemma SameCandidatesForceSlot(g: Group, hash: Hash, key: Key)
    requires |g.slots| > 0
    requires FirstCandidate(hash, key, |g.slots|) == SecondCandidate(hash, key, |g.slots|)
    ensures Choose(g, hash, key).slot == FirstCandidate(hash, key, |g.slots|)
  {
  }

  /** Releasing the slot Choose picked restores the group exactly. */
  lemma ReleaseUndoesChoose(g: Group, hash: Hash, key: Key)
    requires |g.slots| > 0
    ensures Release(Choose(g, hash, key).group, Choose(g, hash, key).slot) == g
  {
    var c := Choose(g, hash, key);
    IncrementDecrementInverse(g.slots[c.slot]);
    assert Release(c.group, c.slot).slots == g.slots;
  }

  /** Choose, release, choose again with the same key: the same slot both times. */
  lemma ChooseAfterReleaseRepeats(g: Group, hash: Hash, key: Key)
    requires |g.slots| > 0
    ensures var c := Choose(g, hash, key);
            Choose(Release(c.group, c.slot), hash, key).slot == c.slot
  {
    ReleaseUndoesChoose(g, hash, key);
  }
}
