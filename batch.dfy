/** A batch of spawns, as values: which record the j-th acquisition of a
    batch takes, and the steps of the batch loop's invariant. */
module Batching {
  import opened Particle
  import opened Links

  /** The record that the j-th of a run of acquisitions takes: the free list
      in order while it lasts, then fresh records n, n+1, .... */
  function Taken(free: seq<int>, n: nat, j: nat): (t: int)
    ensures Below(free, n) ==> 0 <= t < n + (j + 1) - MinNat(j + 1, |free|)
    ensures Below(free, n) ==> (t < n <==> j < |free|)
  {
    if j < |free| then free[j] else n + (j - |free|)
  }

  function MinNat(a: nat, b: nat): nat { if a <= b then a else b }

  /** `free` lists distinct records below n. */
  ghost predicate Below(free: seq<int>, n: int)
  {
    NoDup(free) && forall k :: 0 <= k < |free| ==> 0 <= free[k] < n
  }

  /** Distinct acquisitions take distinct records. */
  lemma TakenDistinct(free: seq<int>, n: nat, i: nat, j: nat)
    requires Below(free, n) && i < j
    ensures Taken(free, n, i) != Taken(free, n, j)
  {
    if j < |free| {
      assert free[i] != free[j];
    }
  }

  /** The record that the j-th acquisition turns into a spawned particle. */
  function Prior(free: seq<int>, rs: seq<Particle>, j: nat): Particle
    requires forall k :: 0 <= k < |free| ==> 0 <= free[k] < |rs|
  {
    if j < |free| then rs[free[j]] else Blank
  }

  /** The state after the first i acquisitions of a batch that started from
      the live list live0, the free list free0 and the records rs0 (n0 of
      them): the i records taken, last first, are in front of live0; the free
      list has lost its first i records (as many as it had); fresh records
      were appended for the rest; each taken record holds its spawned
      particle, and every record below n0 that was not taken is unchanged. */
  ghost predicate Batch(free0: seq<int>, n0: nat, rs0: seq<Particle>, live0: seq<int>, spawns: seq<Spawn>,
                        i: nat, live: seq<int>, recs: seq<Particle>, free: seq<int>)
    requires Below(free0, n0) && |rs0| == n0 && i <= |spawns|
  {
    |live| == |live0| + i && live[i..] == live0 &&
    (forall j :: 0 <= j < i ==> live[i - 1 - j] == Taken(free0, n0, j)) &&
    free == free0[MinNat(i, |free0|)..] &&
    |recs| == n0 + i - MinNat(i, |free0|) &&
    (forall j :: 0 <= j < i ==> recs[Taken(free0, n0, j)] == Born(Prior(free0, rs0, j), spawns[j])) &&
    (forall r :: 0 <= r < n0 && r !in free0[..MinNat(i, |free0|)] ==> recs[r] == rs0[r])
  }

  /** One acquisition of CreateParticles re-establishes its loop invariant. */
  lemma AcquireStep(free0: seq<int>, n0: nat, rs0: seq<Particle>, live0: seq<int>, spawns: seq<Spawn>, i: nat,
                    liveB: seq<int>, recsB: seq<Particle>, freeB: seq<int>,
                    live: seq<int>, recs: seq<Particle>, free: seq<int>, p: int)
    requires Below(free0, n0) && |rs0| == n0 && i < |spawns|
    requires Batch(free0, n0, rs0, live0, spawns, i, liveB, recsB, freeB)
    // what SpawnOne did
    requires live == [p] + liveB && 0 <= p < |recs|
    requires freeB != [] ==> p == freeB[0] && free == freeB[1..] && |recs| == |recsB|
    requires freeB == [] ==> p == |recsB| && free == [] && |recs| == |recsB| + 1
    requires recs[p] == Born(if p < |recsB| then recsB[p] else Blank, spawns[i])
    requires forall r :: 0 <= r < |recsB| && r != p ==> recs[r] == recsB[r]
    ensures Batch(free0, n0, rs0, live0, spawns, i + 1, live, recs, free)
  {
    assert live[i + 1..] == liveB[i..];
    if i < |free0| {
      assert freeB[0] == free0[i];
      assert free == free0[i + 1..];
    }
    assert p == Taken(free0, n0, i);
    // p was never taken before, so it still holds its original record.
    forall j | 0 <= j < i ensures Taken(free0, n0, j) != p { TakenDistinct(free0, n0, j, i); }
    if i < |free0| {
      assert p !in free0[..i] by {
        forall m | 0 <= m < i ensures free0[..i][m] != p { assert free0[m] != free0[i]; }
      }
      assert free0[..i + 1] == free0[..i] + [p];
    }
    forall j | 0 <= j < i + 1 ensures live[i - j] == Taken(free0, n0, j) {
      if j < i { assert live[i - j] == liveB[i - 1 - j]; }
    }
  }

  /** A finished batch, spelled out. */
  lemma BatchDone(free0: seq<int>, n0: nat, rs0: seq<Particle>, live0: seq<int>, spawns: seq<Spawn>,
                  live: seq<int>, recs: seq<Particle>, free: seq<int>)
    requires Below(free0, n0) && |rs0| == n0 && |spawns| == NumToAddEachFrame
    requires Batch(free0, n0, rs0, live0, spawns, NumToAddEachFrame, live, recs, free)
    ensures |live| == |live0| + NumToAddEachFrame && live[NumToAddEachFrame..] == live0
    ensures forall j :: 0 <= j < NumToAddEachFrame ==> live[NumToAddEachFrame - 1 - j] == Taken(free0, n0, j)
    ensures free == free0[MinNat(NumToAddEachFrame, |free0|)..]
    ensures |recs| == n0 + NumToAddEachFrame - MinNat(NumToAddEachFrame, |free0|)
    ensures forall j :: 0 <= j < NumToAddEachFrame ==>
      0 <= Taken(free0, n0, j) < |recs| && recs[Taken(free0, n0, j)] == Born(Prior(free0, rs0, j), spawns[j])
    ensures forall r :: 0 <= r < n0 && r !in free0[..MinNat(NumToAddEachFrame, |free0|)] ==> recs[r] == rs0[r]
  {
  }
}
