/** The per-tick walk over the live list, as values: what each visit does
    to each record, which records survive it, how the list splits into the
    survivors and the recycled records, and the steps of the walk's loop
    invariant. */
module Walking {
  import opened Particle
  import opened Links

  /** Each record as its visit with the matching draw leaves it. */
  function Visited(rs: seq<Particle>, draws: seq<Sample>): seq<Particle>
    requires |rs| <= |draws|
  {
    seq(|rs|, i requires 0 <= i < |rs| => Visit(rs[i], draws[i]))
  }

  /** Whether each record stays live after its visit with the matching draw. */
  function Fates(rs: seq<Particle>, draws: seq<Sample>, w: real, h: real): seq<bool>
    requires |rs| <= |draws|
  {
    seq(|rs|, i requires 0 <= i < |rs| => Survives(rs[i], draws[i], w, h))
  }

  /** `post` and `fate` hold, for each record of `rs`, the record as its visit
      with the matching draw leaves it and whether it stays live. */
  ghost predicate Drawn(rs: seq<Particle>, draws: seq<Sample>, w: real, h: real,
                        post: seq<Particle>, fate: seq<bool>)
  {
    |rs| <= |draws| && |post| == |rs| && |fate| == |rs| &&
    forall i :: 0 <= i < |rs| ==>
      post[i] == Visit(rs[i], draws[i]) && (fate[i] <==> Survives(rs[i], draws[i], w, h))
  }

  lemma VisitedDrawn(rs: seq<Particle>, draws: seq<Sample>, w: real, h: real)
    requires |rs| <= |draws|
    ensures Drawn(rs, draws, w, h, Visited(rs, draws), Fates(rs, draws, w, h))
  {
  }

  /** The records of `L` that stay live after their visit, in order. */
  function Kept(L: seq<int>, fate: seq<bool>): seq<int>
    requires forall m :: 0 <= m < |L| ==> 0 <= L[m] < |fate|
  {
    if L == [] then []
    else
      var x := L[|L| - 1];
      var k := Kept(L[..|L| - 1], fate);
      if fate[x] then k + [x] else k
  }

  /** The records of `L` that are culled on their visit, last visited first:
      the order in which they end up on the front of the free list. */
  function Dropped(L: seq<int>, fate: seq<bool>): seq<int>
    requires forall m :: 0 <= m < |L| ==> 0 <= L[m] < |fate|
  {
    if L == [] then []
    else
      var x := L[|L| - 1];
      var d := Dropped(L[..|L| - 1], fate);
      if fate[x] then d else [x] + d
  }

  /** The walk splits the live list into the survivors and the culled
      records: every record is in exactly one part, and the parts together
      are as long as the list. */
  lemma {:induction false} WalkSplit(L: seq<int>, fate: seq<bool>)
    requires forall m :: 0 <= m < |L| ==> 0 <= L[m] < |fate|
    ensures |Kept(L, fate)| + |Dropped(L, fate)| == |L|
    ensures forall x :: x in Kept(L, fate) <==> x in L && fate[x]
    ensures forall x :: x in Dropped(L, fate) <==> x in L && !fate[x]
  {
    if L != [] {
      var n := |L| - 1;
      WalkSplit(L[..n], fate);
      assert L == L[..n] + [L[n]];
      assert forall x :: x in L <==> x in L[..n] || x == L[n];
    }
  }

  // ------------------------------------------------------------ the walk's loop invariant

  /** The state after the first k visits of a walk that started from the
      live list L, the free list free0 and the records rs0, where post holds
      each record as its visit leaves it and fate whether it survives its
      visit: the visited records that survived, then the unvisited rest of L,
      are live; the culled ones are on the front of the free list; exactly
      the visited records have been updated. */
  ghost predicate Walked(L: seq<int>, rs0: seq<Particle>, post: seq<Particle>, fate: seq<bool>,
                         free0: seq<int>, k: nat, live: seq<int>, free: seq<int>, recs: seq<Particle>)
    requires |post| == |rs0| == |fate| && k <= |L| && forall m :: 0 <= m < |L| ==> 0 <= L[m] < |rs0|
  {
    live == Kept(L[..k], fate) + L[k..] &&
    free == Dropped(L[..k], fate) + free0 &&
    |recs| == |rs0| &&
    forall i :: 0 <= i < |recs| ==> recs[i] == if i in L[..k] then post[i] else rs0[i]
  }

  /** Before the first visit nothing has been visited. */
  lemma WalkStart(L: seq<int>, rs0: seq<Particle>, post: seq<Particle>, fate: seq<bool>, free0: seq<int>)
    requires |post| == |rs0| == |fate| && forall m :: 0 <= m < |L| ==> 0 <= L[m] < |rs0|
    ensures Walked(L, rs0, post, fate, free0, 0, L, free0, rs0)
  {
    assert L[..0] == [] && L[0..] == L;
  }

  /** The successor read at the start of a visit is the next record of the
      list as the walk found it, and the visited record has not been touched. */
  lemma NextOfVisited(L: seq<int>, rs0: seq<Particle>, post: seq<Particle>, fate: seq<bool>,
                      free0: seq<int>, k: nat, live: seq<int>, free: seq<int>, recs: seq<Particle>,
                      nxt: seq<int>)
    requires |post| == |rs0| == |fate| && NoDup(L) && k < |L| && forall m :: 0 <= m < |L| ==> 0 <= L[m] < |rs0|
    requires Walked(L, rs0, post, fate, free0, k, live, free, recs)
    requires Chained(live, nxt)
    ensures 0 <= L[k] < |nxt| && nxt[L[k]] == if k + 1 < |L| then L[k + 1] else NIL
    ensures L[k] in live && 0 <= L[k] < |recs| && recs[L[k]] == rs0[L[k]] && L[k] !in L[..k]
  {
    var m := |Kept(L[..k], fate)|;
    assert live[m] == L[k];
    assert NextAt(live, nxt, m);
    if k + 1 < |L| { assert live[m + 1] == L[k + 1]; }
    assert L[k] !in L[..k] by {
      forall j | 0 <= j < k ensures L[..k][j] != L[k] { assert L[j] != L[k]; }
    }
  }

  /** One visit re-establishes the walk's loop invariant: the visited record
      is updated, and moved to the free list when it is culled. */
  lemma VisitStep(L: seq<int>, rs0: seq<Particle>, post: seq<Particle>, fate: seq<bool>,
                  free0: seq<int>, k: nat,
                  liveB: seq<int>, freeB: seq<int>, recsB: seq<Particle>, culled: bool,
                  live: seq<int>, free: seq<int>, recs: seq<Particle>)
    requires |post| == |rs0| == |fate| && k < |L| && L[k] !in L[..k] && forall m :: 0 <= m < |L| ==> 0 <= L[m] < |rs0|
    requires Walked(L, rs0, post, fate, free0, k, liveB, freeB, recsB)
    requires recs == recsB[L[k] := post[L[k]]]
    requires culled == !fate[L[k]]
    requires culled ==> live == Remove(liveB, L[k]) && free == [L[k]] + freeB
    requires !culled ==> live == liveB && free == freeB
    ensures Walked(L, rs0, post, fate, free0, k + 1, live, free, recs)
  {
    LiveStep(L, fate, k, liveB, live, culled);
    FreeStep(L, fate, k, free0, freeB, free, culled);
    RecsStep(L, k, rs0, post, recsB, recs);
  }

  /** The free list after the visit at position k: unchanged when the record
      survives, with it pushed on the front when it is recycled. */
  lemma FreeStep(L: seq<int>, fate: seq<bool>, k: nat, free0: seq<int>, freeB: seq<int>, free: seq<int>, culled: bool)
    requires k < |L| && forall m :: 0 <= m < |L| ==> 0 <= L[m] < |fate|
    requires freeB == Dropped(L[..k], fate) + free0
    requires culled == !fate[L[k]]
    requires culled ==> free == [L[k]] + freeB
    requires !culled ==> free == freeB
    ensures free == Dropped(L[..k + 1], fate) + free0
  {
    DroppedStep(L, fate, k);
    var d, x := Dropped(L[..k], fate), L[k];
    if culled {
      assert Dropped(L[..k + 1], fate) == [x] + d;
      Assoc([x], d, free0);
    } else {
      assert Dropped(L[..k + 1], fate) == d;
    }
  }

  /** Visiting the record at position k extends the survivors or the culled
      records by it. */
  lemma KeptStep(L: seq<int>, fate: seq<bool>, k: nat)
    requires k < |L| && forall m :: 0 <= m < |L| ==> 0 <= L[m] < |fate|
    ensures Kept(L[..k + 1], fate) == if fate[L[k]] then Kept(L[..k], fate) + [L[k]] else Kept(L[..k], fate)
  {
    assert L[..k + 1][..k] == L[..k];
  }

  lemma Assoc(a: seq<int>, b: seq<int>, c: seq<int>)
    ensures a + (b + c) == (a + b) + c
  {
  }

  lemma DroppedStep(L: seq<int>, fate: seq<bool>, k: nat)
    requires k < |L| && forall m :: 0 <= m < |L| ==> 0 <= L[m] < |fate|
    ensures Dropped(L[..k + 1], fate) == if fate[L[k]] then Dropped(L[..k], fate) else [L[k]] + Dropped(L[..k], fate)
  {
    assert L[..k + 1][..k] == L[..k];
  }

  /** The live list after the visit at position k: unchanged when the record
      survives, without it when it is recycled. */
  lemma LiveStep(L: seq<int>, fate: seq<bool>, k: nat, liveB: seq<int>, live: seq<int>, culled: bool)
    requires k < |L| && L[k] !in L[..k] && forall m :: 0 <= m < |L| ==> 0 <= L[m] < |fate|
    requires liveB == Kept(L[..k], fate) + L[k..]
    requires culled == !fate[L[k]]
    requires culled ==> live == Remove(liveB, L[k])
    requires !culled ==> live == liveB
    ensures live == Kept(L[..k + 1], fate) + L[k + 1..]
  {
    var x, kept, rest := L[k], Kept(L[..k], fate), L[k + 1..];
    KeptStep(L, fate, k);
    Regroup(kept, L, k);
    if culled {
      KeptAbsent(L, fate, k);
      RemoveAfter(kept, x, rest);
    }
  }

  /** Cutting the unvisited part of L in front of its first record. */
  lemma Regroup(a: seq<int>, L: seq<int>, k: nat)
    requires k < |L|
    ensures a + L[k..] == a + [L[k]] + L[k + 1..]
  {
    assert L[k..] == [L[k]] + L[k + 1..];
  }

  /** A record that does not occur before position k is not among the
      survivors of the first k visits. */
  lemma KeptAbsent(L: seq<int>, fate: seq<bool>, k: nat)
    requires k < |L| && L[k] !in L[..k] && forall m :: 0 <= m < |L| ==> 0 <= L[m] < |fate|
    ensures L[k] !in Kept(L[..k], fate)
  {
    WalkSplit(L[..k], fate);
  }

  /** The records after the visit at position k: exactly the first k + 1
      records of L have been updated. */
  lemma RecsStep(L: seq<int>, k: nat, rs0: seq<Particle>, post: seq<Particle>,
                 recsB: seq<Particle>, recs: seq<Particle>)
    requires k < |L| && 0 <= L[k] < |recsB| == |rs0| == |post|
    requires forall i :: 0 <= i < |recsB| ==> recsB[i] == if i in L[..k] then post[i] else rs0[i]
    requires recs == recsB[L[k] := post[L[k]]]
    ensures forall i :: 0 <= i < |recs| ==> recs[i] == if i in L[..k + 1] then post[i] else rs0[i]
  {
    assert forall i :: i in L[..k + 1] <==> i in L[..k] || i == L[k] by {
      assert L[..k + 1] == L[..k] + [L[k]];
    }
  }

  /** What a whole walk does, from the live list L, the records rs0 and the
      free list free0 to live, free and recs: the survivors stay live in
      their order, the culled records are pushed onto the free list, each
      record of L is visited once and every other record is untouched, and
      every record left live is neither dead nor past its lifetime. */
  ghost predicate WalkPost(L: seq<int>, rs0: seq<Particle>, free0: seq<int>, draws: seq<Sample>, w: real, h: real,
                           live: seq<int>, free: seq<int>, recs: seq<Particle>)
    requires |rs0| <= |draws| && forall m :: 0 <= m < |L| ==> 0 <= L[m] < |rs0|
  {
    var fate := Fates(rs0, draws, w, h);
    live == Kept(L, fate) && free == Dropped(L, fate) + free0 &&
    |recs| == |rs0| &&
    (forall i :: 0 <= i < |recs| ==> recs[i] == if i in L then Visit(rs0[i], draws[i]) else rs0[i]) &&
    (forall i :: i in live ==> 0 <= i < |recs| && !recs[i].dead && recs[i].age < Lifetime(recs[i]))
  }

  /** The loop invariant after the last visit gives the whole walk. */
  lemma WalkDone(L: seq<int>, rs0: seq<Particle>, draws: seq<Sample>, w: real, h: real,
                 post: seq<Particle>, fate: seq<bool>,
                 free0: seq<int>, live: seq<int>, free: seq<int>, recs: seq<Particle>)
    requires Drawn(rs0, draws, w, h, post, fate) && fate == Fates(rs0, draws, w, h)
    requires forall m :: 0 <= m < |L| ==> 0 <= L[m] < |rs0|
    requires Walked(L, rs0, post, fate, free0, |L|, live, free, recs)
    ensures WalkPost(L, rs0, free0, draws, w, h, live, free, recs)
  {
    assert L[..|L|] == L;
    WalkSplit(L, fate);
    forall i | i in live ensures 0 <= i < |recs| && !recs[i].dead && recs[i].age < Lifetime(recs[i]) {
      SurvivorAlive(rs0[i], draws[i], w, h);
    }
  }
}
