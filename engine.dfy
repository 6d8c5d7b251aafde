/** The frame driver's state: the particle records of the pool with their
    list links, the two list heads and the spawn admission counter, and the
    operations that change them — adding a particle, recycling one, creating
    a batch, the per-tick walk over the live list and the tick itself. */
module Engine {
  import opened Particle
  import opened Links
  import opened Admission
  import opened Walking
  import opened Batching

  class Engine {
    var recs: seq<Particle>   // the record fields, by record index
    var nxt: seq<int>         // each record's `next` link
    var prv: seq<int>         // each record's `prev` link
    var liveHead: int         // head of the live list
    var freeHead: int         // head of the recycle bin
    var count: int            // ticks since the last batch was created
    const wait: int := 1      // ticks per batch
    const width: real         // canvas size
    const height: real

    ghost var live: seq<int>  // the live list, front to back
    ghost var free: seq<int>  // the recycle bin, front to back

    ghost predicate Valid()
      reads this
    {
      |recs| == |nxt| &&
      LinksOk(nxt, prv, liveHead, freeHead, live, free) &&
      0 <= count < wait
    }

    /** No record on the live list is marked dead (the state between ticks). */
    ghost predicate Alive()
      reads this
      requires Valid()
    {
      forall i :: i in live ==> !recs[i].dead
    }

    constructor (w: real, h: real)
      ensures Valid() && Alive()
      ensures recs == [] && live == [] && free == [] && count == 0
      ensures width == w && height == h
    {
      recs, nxt, prv := [], [], [];
      liveHead, freeHead := NIL, NIL;
      count := 0;
      width, height := w, h;
      live, free := [], [];
    }

    /** Takes the head of the recycle bin, or a fresh record when the bin is
        empty, resets its position, velocity, age and dead flag, and pushes it
        on the front of the live list. */
    method AddParticle(x: real, y: real, z: real, vx: real, vy: real, vz: real) returns (p: int)
      requires Valid()
      modifies this
      ensures Valid()
      ensures old(free) != [] ==> p == old(freeHead) && free == old(free)[1..] && |recs| == old(|recs|)
      ensures old(free) != [] ==> freeHead == old(nxt[freeHead])
      ensures old(free) == [] ==> p == old(|recs|) && free == [] && |recs| == old(|recs|) + 1
      ensures live == [p] + old(live)
      ensures liveHead == p && prv[p] == NIL && nxt[p] == old(liveHead)
      ensures old(liveHead) != NIL ==> prv[old(liveHead)] == p
      ensures recs[p] == Reset(if p < old(|recs|) then old(recs[p]) else Blank, x, y, z, vx, vy, vz)
      ensures forall i :: 0 <= i < old(|recs|) && i != p ==> recs[i] == old(recs[i])
      ensures count == old(count)
      ensures old(Alive()) ==> Alive()
    {
      var rs, nx, pv, fh := recs, nxt, prv, freeHead;
      ghost var fr := free;
      if fh != NIL {
        p := fh;
        fh := nx[p];
        fr := fr[1..];
      } else {
        p := |rs|;
        rs, nx, pv := rs + [Blank], nx + [NIL], pv + [NIL];
      }
      rs := rs[p := Reset(rs[p], x, y, z, vx, vy, vz)];
      nx := nx[p := liveHead];
      if liveHead != NIL {
        pv := pv[liveHead := p];
      }
      pv := pv[p := NIL];
      AddLinks(nxt, prv, liveHead, freeHead, live, free, p, nx, pv, fh, fr);
      recs, nxt, prv, liveHead, freeHead := rs, nx, pv, p, fh;
      live, free := [p] + live, fr;
    }

    /** Unlinks the live record p from the live list and pushes it on the
        front of the recycle bin. Its `prv` link is left as it was. */
    method Recycle(p: int)
      requires Valid() && p in live
      modifies this
      ensures Valid()
      ensures live == Remove(old(live), p) && free == [p] + old(free)
      ensures recs == old(recs) && count == old(count) && |nxt| == old(|nxt|)
      ensures freeHead == p && nxt[p] == old(freeHead) && prv[p] == old(prv[p])
      ensures liveHead == if old(liveHead) == p then old(nxt[p]) else old(liveHead)
      ensures old(prv[p]) != NIL ==> 0 <= old(prv[p]) < |nxt| && nxt[old(prv[p])] == old(nxt[p])
      ensures old(nxt[p]) != NIL ==> 0 <= old(nxt[p]) < |prv| && prv[old(nxt[p])] == old(prv[p])
    {
      LiveLinks(nxt, prv, liveHead, freeHead, live, free, p);
      var nx, pv, lh := nxt, prv, liveHead;
      if pv[p] != NIL {
        nx := nx[pv[p] := nx[p]];
      }
      if nx[p] != NIL {
        pv := pv[nx[p] := pv[p]];
      }
      if lh == p {
        lh := nx[p];
      }
      nx := nx[p := freeHead];
      RecycleLinks(nxt, prv, liveHead, freeHead, live, free, p, nx, pv, lh);
      nxt, prv, liveHead, freeHead := nx, pv, lh, p;
      live, free := Remove(live, p), [p] + free;
    }

    /** One iteration of the batch: add a particle at the spawn's sphere
        point and give it the 50/50/100 envelope and its settling delay. */
    method SpawnOne(s: Spawn) returns (p: int)
      requires Valid()
      modifies this
      ensures Valid() && count == old(count)
      ensures live == [p] + old(live) && 0 <= p < |recs|
      ensures old(free) != [] ==> p == old(free)[0] && free == old(free)[1..] && |recs| == old(|recs|)
      ensures old(free) == [] ==> p == old(|recs|) && free == [] && |recs| == old(|recs|) + 1
      ensures recs[p] == Born(if p < old(|recs|) then old(recs[p]) else Blank, s)
      ensures forall r :: 0 <= r < old(|recs|) && r != p ==> recs[r] == old(recs[r])
      ensures old(Alive()) ==> Alive()
    {
      p := AddParticle(s.x, s.y, SphereCenterZ + s.z, 0.002 * s.x, 0.002 * s.y, 0.002 * s.z);
      recs := recs[p := Shape(recs[p], s.u)];
    }

    /** Creates a batch of NumToAddEachFrame particles, one per spawn draw,
        each added to the live list and given the 50/50/100 envelope and its
        settling delay. */
    method CreateParticles(spawns: seq<Spawn>)
      requires Valid() && |spawns| == NumToAddEachFrame
      modifies this
      ensures Valid()
      ensures |live| == |old(live)| + NumToAddEachFrame && live[NumToAddEachFrame..] == old(live)
      ensures forall j :: 0 <= j < NumToAddEachFrame ==>
        live[NumToAddEachFrame - 1 - j] == Taken(old(free), old(|recs|), j)
      ensures free == old(free)[MinNat(NumToAddEachFrame, |old(free)|)..]
      ensures |recs| == old(|recs|) + NumToAddEachFrame - MinNat(NumToAddEachFrame, |old(free)|)
      ensures forall j :: 0 <= j < NumToAddEachFrame ==>
        recs[Taken(old(free), old(|recs|), j)] == Born(Prior(old(free), old(recs), j), spawns[j])
      ensures forall r :: 0 <= r < old(|recs|) && r !in old(free)[..MinNat(NumToAddEachFrame, |old(free)|)] ==>
        recs[r] == old(recs[r])
      ensures count == old(count)
      ensures old(Alive()) ==> Alive()
    {
      ghost var free0, n0, rs0, live0 := free, |recs|, recs, live;
      assert Below(free0, n0) by {
        forall k | 0 <= k < |free0| ensures 0 <= free0[k] < n0 { assert free0[k] in free0; }
      }
      assert free0[MinNat(0, |free0|)..] == free0;
      for i := 0 to NumToAddEachFrame
        invariant Valid() && count == old(count)
        invariant Batch(free0, n0, rs0, live0, spawns, i, live, recs, free)
        invariant old(Alive()) ==> Alive()
      {
        ghost var liveB, recsB, freeB := live, recs, free;
        var p := SpawnOne(spawns[i]);
        AcquireStep(free0, n0, rs0, live0, spawns, i, liveB, recsB, freeB, live, recs, free, p);
      }
      BatchDone(free0, n0, rs0, live0, spawns, live, recs, free);
    }

    /** The walk's work on one live record: age it by a tick, move it once
        it has settled, give it its projected position, update its envelope,
        and recycle it when it is off the canvas, behind the near plane or
        dead. The result says whether it was recycled. */
    method VisitRecord(p: int, s: Sample) returns (culled: bool)
      requires Valid() && p in live
      modifies this
      ensures Valid() && count == old(count)
      ensures |recs| == old(|recs|) && recs == old(recs)[p := Visit(old(recs[p]), s)]
      ensures culled == !Survives(old(recs[p]), s, width, height)
      ensures culled ==> live == Remove(old(live), p) && free == [p] + old(free)
      ensures !culled ==> live == old(live) && free == old(free)
    {
      var r := recs[p];
      r := r.(age := r.age + 1);
      r := Integrate(r, s);
      r := r.(projX := s.projX, projY := s.projY);
      r := UpdateAlpha(r);
      recs := recs[p := r];
      culled := Culled(r.projX, r.projY, s.rotZ, r.dead, width, height);
      if culled {
        Recycle(p);
      }
    }

    /** The per-tick walk over the live list: each record on the list when
        the walk starts is visited once, in order — aged by a tick, moved,
        given its projected position and envelope — and recycled when it is
        culled. The successor is read before the record can be recycled. */
    method Walk(draws: seq<Sample>)
      requires Valid() && |recs| <= |draws|
      modifies this
      ensures Valid() && count == old(count)
      ensures forall m :: 0 <= m < |old(live)| ==> 0 <= old(live)[m] < |old(recs)|
      ensures WalkPost(old(live), old(recs), old(free), draws, width, height, live, free, recs)
    {
      ghost var L, rs0, free0 := live, recs, free;
      ghost var post, fate := Visited(recs, draws), Fates(recs, draws, width, height);
      ghost var k: nat := 0;
      VisitedDrawn(recs, draws, width, height);
      WalkStart(L, rs0, post, fate, free0);
      var p := liveHead;
      while p != NIL
        invariant Valid() && count == old(count)
        invariant 0 <= k <= |L|
        invariant p == if k < |L| then L[k] else NIL
        invariant Walked(L, rs0, post, fate, free0, k, live, free, recs)
        decreases |L| - k
      {
        p := Advance(p, draws, L, rs0, post, fate, free0, k);
        k := k + 1;
      }
      WalkDone(L, rs0, draws, width, height, post, fate, free0, live, free, recs);
    }

    /** One iteration of the walk: read the successor of the k-th record of
        the list the walk started from, then visit that record. */
    method Advance(p: int, draws: seq<Sample>, ghost L: seq<int>, ghost rs0: seq<Particle>,
                   ghost post: seq<Particle>, ghost fate: seq<bool>, ghost free0: seq<int>, ghost k: nat)
        returns (next: int)
      requires Valid() && |rs0| <= |draws|
      requires Drawn(rs0, draws, width, height, post, fate)
      requires NoDup(L) && forall m :: 0 <= m < |L| ==> 0 <= L[m] < |rs0|
      requires k < |L| && p == L[k]
      requires Walked(L, rs0, post, fate, free0, k, live, free, recs)
      modifies this
      ensures Valid() && count == old(count)
      ensures Walked(L, rs0, post, fate, free0, k + 1, live, free, recs)
      ensures next == if k + 1 < |L| then L[k + 1] else NIL
    {
      NextOfVisited(L, rs0, post, fate, free0, k, live, free, recs, nxt);
      next := nxt[p];
      ghost var liveB, freeB, recsB := live, free, recs;
      var culled := VisitRecord(p, draws[p]);
      VisitStep(L, rs0, post, fate, free0, k, liveB, freeB, recsB, culled, live, free, recs);
    }

    /** One tick of the frame driver: bump the admission counter and create
        a batch when it reaches `wait`, then walk the live list. `started`,
        `mid` and `idle` are the live list, the records and the free list as
        the walk found them. */
    method Tick(spawns: seq<Spawn>, draws: seq<Sample>)
        returns (ghost started: seq<int>, ghost mid: seq<Particle>, ghost idle: seq<int>)
      requires Valid() && |spawns| == NumToAddEachFrame && |recs| + NumToAddEachFrame <= |draws|
      modifies this
      ensures Valid() && count == AdmitStep(old(count), wait).count
      ensures AdmitStep(old(count), wait).spawn
      ensures |started| == |old(live)| + NumToAddEachFrame && started[NumToAddEachFrame..] == old(live)
      ensures forall j :: 0 <= j < NumToAddEachFrame ==>
        started[NumToAddEachFrame - 1 - j] == Taken(old(free), old(|recs|), j)
      ensures idle == old(free)[MinNat(NumToAddEachFrame, |old(free)|)..]
      ensures |mid| == old(|recs|) + NumToAddEachFrame - MinNat(NumToAddEachFrame, |old(free)|)
      ensures forall j :: 0 <= j < NumToAddEachFrame ==>
        mid[Taken(old(free), old(|recs|), j)] == Born(Prior(old(free), old(recs), j), spawns[j])
      ensures forall r :: 0 <= r < old(|recs|) && r !in old(free)[..MinNat(NumToAddEachFrame, |old(free)|)] ==>
        mid[r] == old(recs[r])
      ensures |recs| == |mid| <= |draws| && forall m :: 0 <= m < |started| ==> 0 <= started[m] < |mid|
      ensures WalkPost(started, mid, idle, draws, width, height, live, free, recs)
    {
      count := count + 1;
      if count >= wait {
        count := 0;
        CreateParticles(spawns);
      }
      started, mid, idle := live, recs, free;
      Walk(draws);
    }
  }
}
