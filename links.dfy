/** The pool's link structure as values: records are arena indices, `nxt` and
    `prv` hold each record's forward and backward link (NIL for none), and two
    head indices start the live list (doubly linked) and the recycle bin (a
    free list linked through `nxt` only). The abstract lists `live` and `free`
    give the order in which the links visit the records. */
module Links {

  const NIL: int := -1

  function HeadOf(s: seq<int>): int
  {
    if s == [] then NIL else s[0]
  }

  ghost predicate NoDup(s: seq<int>)
  {
    forall i, j :: 0 <= i < j < |s| ==> s[i] != s[j]
  }

  /** `live` and `free` are disjoint, duplicate-free, and together hold
      exactly the records 0 .. n-1 allocated so far. */
  ghost predicate Partition(live: seq<int>, free: seq<int>, n: int)
  {
    NoDup(live) && NoDup(free) &&
    (forall i :: i in live ==> 0 <= i < n && i !in free) &&
    (forall i :: i in free ==> 0 <= i < n) &&
    (forall i :: 0 <= i < n ==> i in live || i in free)
  }

  /** The element after position k of `s`, NIL after the last. */
  function Succ(s: seq<int>, k: int): int
    requires 0 <= k < |s|
  {
    if k + 1 < |s| then s[k + 1] else NIL
  }

  /** The element before position k of `s`, NIL before the first. */
  function Pred(s: seq<int>, k: int): int
    requires 0 <= k < |s|
  {
    if 0 < k then s[k - 1] else NIL
  }

  /** Following `nxt` from the first element of `s` visits `s` in order and
      then reaches NIL. */
  ghost predicate Chained(s: seq<int>, nxt: seq<int>)
  {
    (forall k :: 0 <= k < |s| ==> 0 <= s[k] < |nxt|) &&
    (forall k :: 0 <= k < |s| ==> NextAt(s, nxt, k))
  }

  /** The forward link of the element at position k of `s`. */
  ghost predicate NextAt(s: seq<int>, nxt: seq<int>, k: int)
    requires 0 <= k < |s|
  {
    0 <= s[k] < |nxt| && nxt[s[k]] == Succ(s, k)
  }

  /** The backward link of the element at position k of `s`. */
  ghost predicate PrevAt(s: seq<int>, prv: seq<int>, k: int)
    requires 0 <= k < |s|
  {
    0 <= s[k] < |prv| && prv[s[k]] == Pred(s, k)
  }

  /** Each element's `prv` is its predecessor in `s`, NIL for the first. */
  ghost predicate BackChained(s: seq<int>, prv: seq<int>)
  {
    (forall k :: 0 <= k < |s| ==> 0 <= s[k] < |prv|) &&
    (forall k :: 0 <= k < |s| ==> PrevAt(s, prv, k))
  }

  /** The pool invariant. The `prv` link of a record on the free list is not
      constrained: recycling leaves it stale. */
  ghost predicate LinksOk(nxt: seq<int>, prv: seq<int>, liveHead: int, freeHead: int,
                          live: seq<int>, free: seq<int>)
  {
    |nxt| == |prv| &&
    Partition(live, free, |nxt|) &&
    Chained(live, nxt) && BackChained(live, prv) && Chained(free, nxt) &&
    liveHead == HeadOf(live) && freeHead == HeadOf(free)
  }

  /** `s` without its first occurrence of `x`. */
  function Remove(s: seq<int>, x: int): (r: seq<int>)
    ensures |r| == if x in s then |s| - 1 else |s|
  {
    if s == [] then []
    else if s[0] == x then s[1..]
    else [s[0]] + Remove(s[1..], x)
  }

  /** Removing the element at position j of a duplicate-free sequence cuts
      exactly that position out. */
  lemma {:induction false} RemoveAt(s: seq<int>, j: int)
    requires NoDup(s) && 0 <= j < |s|
    ensures Remove(s, s[j]) == s[..j] + s[j + 1..]
  {
    if j > 0 {
      assert s[0] != s[j];
      assert NoDup(s[1..]) by {
        forall a, b | 0 <= a < b < |s[1..]| ensures s[1..][a] != s[1..][b] {
          assert s[1..][a] == s[a + 1] && s[1..][b] == s[b + 1];
        }
      }
      RemoveAt(s[1..], j - 1);
      assert s[1..][j - 1] == s[j];
      assert s[1..][..j - 1] == s[1..j];
      assert s[1..][j..] == s[j + 1..];
      assert [s[0]] + s[1..j] == s[..j];
    }
  }

  /** Removing an element that is absent from the front part leaves the
      front part and the rest of the sequence in order. */
  lemma {:induction false} RemoveAfter(a: seq<int>, x: int, b: seq<int>)
    requires x !in a
    ensures Remove(a + [x] + b, x) == a + b
  {
    var s := a + [x] + b;
    if a != [] {
      assert s[0] == a[0] != x;
      assert s[1..] == a[1..] + [x] + b;
      RemoveAfter(a[1..], x, b);
      assert Remove(s, x) == [a[0]] + (a[1..] + b);
      assert a == [a[0]] + a[1..];
    } else {
      assert s == [x] + b;
    }
  }

  /** Facts about a sequence with one element put in front. */
  lemma {:induction false} ConsFacts(x: int, s: seq<int>)
    ensures forall i :: i in [x] + s <==> i == x || i in s
    ensures forall k :: 0 <= k < |s| ==> ([x] + s)[k + 1] == s[k]
    ensures NoDup([x] + s) <==> x !in s && NoDup(s)
  {
    var t := [x] + s;
    assert forall k :: 0 <= k < |s| ==> t[k + 1] == s[k];
    if NoDup(t) {
      forall i, j | 0 <= i < j < |s| ensures s[i] != s[j] {
        assert t[i + 1] == s[i] && t[j + 1] == s[j];
      }
      forall k | 0 <= k < |s| ensures s[k] != x {
        assert t[k + 1] == s[k] && t[0] == x;
      }
    }
    if x !in s && NoDup(s) {
      forall i, j | 0 <= i < j < |t| ensures t[i] != t[j] {
        assert t[j] == s[j - 1];
        if 0 < i { assert t[i] == s[i - 1]; }
      }
    }
  }

  // ------------------------------------------------------------ pushing a record

  /** `s` with one more (NIL) link when p is a fresh record just past its end. */
  function Grow(s: seq<int>, p: int): seq<int>
  {
    if p < |s| then s else s + [NIL]
  }

  /** `prv` with the old live head pointed back at p, when there is one. */
  function Hook(prv: seq<int>, liveHead: int, p: int): seq<int>
    requires liveHead == NIL || 0 <= liveHead < |prv|
  {
    if liveHead != NIL then prv[liveHead := p] else prv
  }

  /** Pushing a detached record `p` on the front of the live list (write
      `nxt[p]`, point the old head's `prv` at `p`, make `p` the head and clear
      its `prv`) yields a valid pool whose live list is `[p] + live`, whatever
      links `p` held before. */
  lemma {:induction false} LinkFront(nxt: seq<int>, prv: seq<int>, liveHead: int, freeHead: int,
                                     live: seq<int>, free: seq<int>, p: int)
    requires |nxt| == |prv| && 0 <= p < |nxt|
    requires Partition([p] + live, free, |nxt|)
    requires Chained(live, nxt) && BackChained(live, prv) && Chained(free, nxt)
    requires liveHead == HeadOf(live) && freeHead == HeadOf(free)
    ensures liveHead == NIL || 0 <= liveHead < |prv|
    ensures LinksOk(nxt[p := liveHead], Hook(prv, liveHead, p)[p := NIL], p, freeHead, [p] + live, free)
  {
    ConsFacts(p, live);
    assert p in [p] + live;
    FrontNext(nxt, live, p, liveHead);
    FrontPrev(prv, live, p, liveHead);
    FreeUntouched(nxt, free, p, liveHead);
  }

  /** The forward links after pushing p: p points at the old head. */
  lemma {:induction false} FrontNext(nxt: seq<int>, live: seq<int>, p: int, liveHead: int)
    requires 0 <= p < |nxt| && p !in live && Chained(live, nxt) && liveHead == HeadOf(live)
    ensures Chained([p] + live, nxt[p := liveHead])
  {
    var nxt', live' := nxt[p := liveHead], [p] + live;
    forall k | 0 <= k < |live'|
      ensures NextAt(live', nxt', k)
    {
      if k > 0 {
        assert NextAt(live, nxt, k - 1);
        assert live'[k] == live[k - 1] && live[k - 1] in live;
        if k + 1 < |live'| { assert live'[k + 1] == live[k]; }
      } else if 0 < |live| {
        assert live'[1] == live[0];
      }
    }
  }

  /** The backward links after pushing p: the old head points back at p, and
      p at nothing. */
  lemma {:induction false} FrontPrev(prv: seq<int>, live: seq<int>, p: int, liveHead: int)
    requires 0 <= p < |prv| && p !in live && NoDup(live) && BackChained(live, prv)
    requires liveHead == HeadOf(live)
    ensures liveHead == NIL || 0 <= liveHead < |prv|
    ensures BackChained([p] + live, Hook(prv, liveHead, p)[p := NIL])
  {
    if live != [] { assert PrevAt(live, prv, 0); }
    var prv', live' := Hook(prv, liveHead, p)[p := NIL], [p] + live;
    forall k | 0 <= k < |live'|
      ensures PrevAt(live', prv', k)
    {
      if k > 1 {
        assert PrevAt(live, prv, k - 1);
        assert live'[k] == live[k - 1] && live[k - 1] in live;
        assert live[k - 1] != live[0];
        assert live'[k - 1] == live[k - 2];
      } else if k == 1 {
        assert live'[k] == live[0] == liveHead;
      }
    }
  }

  /** Writing the link of a record off the free list leaves the free list's
      links intact. */
  lemma {:induction false} FreeUntouched(nxt: seq<int>, free: seq<int>, p: int, v: int)
    requires 0 <= p < |nxt| && p !in free && Chained(free, nxt)
    ensures Chained(free, nxt[p := v])
  {
    var nxt' := nxt[p := v];
    forall k | 0 <= k < |free|
      ensures NextAt(free, nxt', k)
    {
      assert NextAt(free, nxt, k);
      assert free[k] in free;
    }
  }

  /** Taking the head of the free list for reuse detaches it. */
  lemma PartitionPop(live: seq<int>, free: seq<int>, n: int, nxt: seq<int>)
    requires Partition(live, free, n) && Chained(free, nxt) && free != []
    ensures Partition([free[0]] + live, free[1..], n)
    ensures Chained(free[1..], nxt) && HeadOf(free[1..]) == nxt[free[0]]
  {
    PopPartition(live, free, n);
    PopChain(free, nxt);
  }

  lemma PopPartition(live: seq<int>, free: seq<int>, n: int)
    requires Partition(live, free, n) && free != []
    ensures Partition([free[0]] + live, free[1..], n)
  {
    var x, free' := free[0], free[1..];
    assert free == [x] + free';
    ConsFacts(x, free');
    ConsFacts(x, live);
    assert x !in live;
  }

  lemma PopChain(free: seq<int>, nxt: seq<int>)
    requires Chained(free, nxt) && free != []
    ensures Chained(free[1..], nxt) && HeadOf(free[1..]) == nxt[free[0]]
  {
    var free' := free[1..];
    forall k | 0 <= k < |free'|
      ensures NextAt(free', nxt, k)
    {
      assert NextAt(free, nxt, k + 1);
      assert free'[k] == free[k + 1];
      if k + 1 < |free'| { assert free'[k + 1] == free[k + 2]; }
    }
    assert NextAt(free, nxt, 0);
    if 1 < |free| { assert free'[0] == free[1]; }
  }

  /** A freshly allocated record n (with an arbitrary link written for it)
      is detached from a pool of n records. */
  lemma {:induction false} PartitionGrow(live: seq<int>, free: seq<int>, nxt: seq<int>, prv: seq<int>, a: int)
    requires Partition(live, free, |nxt|) && |prv| == |nxt|
    requires Chained(live, nxt) && BackChained(live, prv) && Chained(free, nxt)
    ensures Partition([|nxt|] + live, free, |nxt| + 1)
    ensures Chained(live, nxt + [a]) && BackChained(live, prv + [a]) && Chained(free, nxt + [a])
  {
    var n := |nxt|;
    ConsFacts(n, live);
    assert n !in live;
    forall k | 0 <= k < |live|
      ensures NextAt(live, nxt + [a], k)
    {
      assert NextAt(live, nxt, k);
      assert live[k] in live;
    }
    forall k | 0 <= k < |live|
      ensures PrevAt(live, prv + [a], k)
    {
      assert PrevAt(live, prv, k);
      assert live[k] in live;
    }
    forall k | 0 <= k < |free|
      ensures NextAt(free, nxt + [a], k)
    {
      assert NextAt(free, nxt, k);
      assert free[k] in free;
    }
  }

  /** addParticle on the links: take the head of the free list, or a fresh
      record when the list is empty, and push it on the front of the live
      list. The result is a valid pool with p in front of the old live list. */
  lemma {:induction false} AddLinks(nxt: seq<int>, prv: seq<int>, liveHead: int, freeHead: int,
                                    live: seq<int>, free: seq<int>, p: int,
                                    nxt': seq<int>, prv': seq<int>, freeHead': int, free': seq<int>)
    requires LinksOk(nxt, prv, liveHead, freeHead, live, free)
    requires p == if freeHead != NIL then freeHead else |nxt|
    requires freeHead' == if free != [] then nxt[free[0]] else NIL
    requires free' == if free != [] then free[1..] else []
    requires liveHead == NIL || 0 <= liveHead < |prv|
    requires nxt' == Grow(nxt, p)[p := liveHead]
    requires prv' == Hook(Grow(prv, p), liveHead, p)[p := NIL]
    ensures LinksOk(nxt', prv', p, freeHead', [p] + live, free')
    ensures p !in live && p != liveHead && 0 <= p <= |nxt| && |nxt'| == |Grow(nxt, p)|
    ensures p < |nxt| <==> free != []
    ensures 0 <= p < |nxt'| && nxt'[p] == liveHead && prv'[p] == NIL
    ensures liveHead != NIL ==> prv'[liveHead] == p
  {
    ConsFacts(p, live);
    if free != [] {
      PartitionPop(live, free, |nxt|, nxt);
      LinkFront(nxt, prv, liveHead, nxt[p], live, free[1..], p);
    } else {
      PartitionGrow(live, free, nxt, prv, NIL);
      LinkFront(nxt + [NIL], prv + [NIL], liveHead, freeHead, live, free, p);
    }
  }

  // ------------------------------------------------------------ unlinking a record

  /** The `nxt` links after recycling the live record p: its predecessor jumps
      over it, and p itself points at the old free-list head. */
  function UnlinkNext(nxt: seq<int>, prv: seq<int>, freeHead: int, p: int): seq<int>
    requires 0 <= p < |nxt| == |prv|
    requires prv[p] == NIL || 0 <= prv[p] < |nxt|
  {
    (if prv[p] != NIL then nxt[prv[p] := nxt[p]] else nxt)[p := freeHead]
  }

  /** The `prv` links after recycling p: its successor points back at p's
      predecessor; p's own `prv` is left as it was. */
  function UnlinkPrev(nxt: seq<int>, prv: seq<int>, p: int): seq<int>
    requires 0 <= p < |nxt| == |prv|
    requires nxt[p] == NIL || 0 <= nxt[p] < |prv|
  {
    if nxt[p] != NIL then prv[nxt[p] := prv[p]] else prv
  }

  /** The neighbours of the live record at position j, read from its links. */
  lemma {:induction false} Neighbours(nxt: seq<int>, prv: seq<int>, liveHead: int, freeHead: int,
                                      live: seq<int>, free: seq<int>, j: int)
    requires LinksOk(nxt, prv, liveHead, freeHead, live, free)
    requires 0 <= j < |live|
    ensures 0 <= live[j] < |nxt|
    ensures prv[live[j]] == (if 0 < j then live[j - 1] else NIL)
    ensures nxt[live[j]] == (if j + 1 < |live| then live[j + 1] else NIL)
    ensures prv[live[j]] == NIL || 0 <= prv[live[j]] < |nxt|
    ensures nxt[live[j]] == NIL || 0 <= nxt[live[j]] < |nxt|
    ensures (liveHead == live[j]) <==> j == 0
    ensures prv[live[j]] != live[j] && nxt[live[j]] != live[j]
  {
    assert NextAt(live, nxt, j) && PrevAt(live, prv, j);
    if 0 < j {
      assert live[0] != live[j];
      assert live[j - 1] != live[j];
    }
    if j + 1 < |live| {
      assert live[j + 1] != live[j];
    }
  }

  /** The links of a live record p: both neighbours are NIL or records of
      the pool, and neither is p itself. */
  lemma {:induction false} LiveLinks(nxt: seq<int>, prv: seq<int>, liveHead: int, freeHead: int,
                                     live: seq<int>, free: seq<int>, p: int)
    requires LinksOk(nxt, prv, liveHead, freeHead, live, free) && p in live
    ensures 0 <= p < |nxt|
    ensures prv[p] == NIL || 0 <= prv[p] < |nxt|
    ensures nxt[p] == NIL || 0 <= nxt[p] < |nxt|
    ensures prv[p] != p && nxt[p] != p
  {
    var j :| 0 <= j < |live| && live[j] == p;
    Neighbours(nxt, prv, liveHead, freeHead, live, free, j);
  }

  /** recycle on the links: unlink the live record p and push it on the
      front of the free list. The result is a valid pool whose live list has
      lost p and whose free list starts with it; p's successor link now
      points at the old free head, its `prv` link is left stale, and its old
      neighbours are linked to each other. */
  lemma {:induction false} RecycleLinks(nxt: seq<int>, prv: seq<int>, liveHead: int, freeHead: int,
                                        live: seq<int>, free: seq<int>, p: int,
                                        nxt': seq<int>, prv': seq<int>, liveHead': int)
    requires LinksOk(nxt, prv, liveHead, freeHead, live, free) && p in live
    requires 0 <= p < |nxt|
    requires prv[p] == NIL || 0 <= prv[p] < |nxt|
    requires nxt[p] == NIL || 0 <= nxt[p] < |nxt|
    requires nxt' == UnlinkNext(nxt, prv, freeHead, p)
    requires prv' == UnlinkPrev(nxt, prv, p)
    requires liveHead' == if liveHead == p then nxt[p] else liveHead
    ensures LinksOk(nxt', prv', liveHead', p, Remove(live, p), [p] + free)
    ensures forall i :: i in Remove(live, p) ==> i in live
    ensures |nxt'| == |nxt| && nxt'[p] == freeHead && prv'[p] == prv[p]
    ensures prv[p] != NIL ==> nxt'[prv[p]] == nxt[p]
    ensures nxt[p] != NIL ==> prv'[nxt[p]] == prv[p]
  {
    var j :| 0 <= j < |live| && live[j] == p;
    Unlink(nxt, prv, liveHead, freeHead, live, free, j, nxt', prv', liveHead');
    RemoveAt(live, j);
  }

  /** The live list with position j cut out, and the disjointness of the two
      lists after the cut record moves to the free list. */
  lemma {:induction false} UnlinkPartition(live: seq<int>, free: seq<int>, n: int, j: int)
    requires Partition(live, free, n) && 0 <= j < |live|
    ensures Partition(live[..j] + live[j + 1..], [live[j]] + free, n)
  {
    var p := live[j];
    var live' := live[..j] + live[j + 1..];
    var free' := [p] + free;
    assert Lv: forall k :: 0 <= k < |live'| ==> live'[k] == (if k < j then live[k] else live[k + 1]);
    ConsFacts(p, free);
    assert p in live;
    forall a, b | 0 <= a < b < |live'| ensures live'[a] != live'[b] {
      assert live'[a] == (if a < j then live[a] else live[a + 1]);
      assert live'[b] == (if b < j then live[b] else live[b + 1]);
    }
    forall i | i in live' ensures 0 <= i < n && i !in free' {
      var k :| 0 <= k < |live'| && live'[k] == i;
      if k < j {
        assert i == live[k] && live[k] != live[j];
      } else {
        assert i == live[k + 1] && live[k + 1] != live[j];
      }
      assert i in live;
    }
    forall i | 0 <= i < n ensures i in live' || i in free' {
      if i !in free && i != p {
        assert i in live;
        var k :| 0 <= k < |live| && live[k] == i;
        assert k != j;
        if k < j { assert live'[k] == i; } else { assert live'[k - 1] == i; }
      }
    }
  }

  /** Forward links of the live list after the cut. */
  lemma {:induction false} UnlinkLiveNext(nxt: seq<int>, prv: seq<int>, liveHead: int, freeHead: int,
                                          live: seq<int>, free: seq<int>, j: int)
    requires LinksOk(nxt, prv, liveHead, freeHead, live, free)
    requires 0 <= j < |live|
    requires (prv[live[j]] == NIL || 0 <= prv[live[j]] < |nxt|)
    ensures Chained(live[..j] + live[j + 1..], UnlinkNext(nxt, prv, freeHead, live[j]))
  {
    var p := live[j];
    Neighbours(nxt, prv, liveHead, freeHead, live, free, j);
    var nxt' := UnlinkNext(nxt, prv, freeHead, p);
    var live' := live[..j] + live[j + 1..];
    forall k | 0 <= k < |live'|
      ensures NextAt(live', nxt', k)
    {
      if k < j - 1 {
        assert NextAt(live, nxt, k);
        assert live'[k] == live[k] && live[k] != live[j - 1] && live[k] != p;
        assert live'[k + 1] == live[k + 1];
      } else if k == j - 1 {
        assert live'[k] == live[j - 1] == prv[p] && live[j - 1] != p;
        if k + 1 < |live'| { assert live'[k + 1] == live[j + 1]; }
      } else {
        assert NextAt(live, nxt, k + 1);
        assert live'[k] == live[k + 1];
        assert live[k + 1] != p;
        assert j > 0 ==> live[k + 1] != live[j - 1];
        if k + 1 < |live'| { assert live'[k + 1] == live[k + 2]; }
      }
    }
  }

  /** Backward links of the live list after the cut. */
  lemma {:induction false} UnlinkLivePrev(nxt: seq<int>, prv: seq<int>, liveHead: int, freeHead: int,
                                          live: seq<int>, free: seq<int>, j: int)
    requires LinksOk(nxt, prv, liveHead, freeHead, live, free)
    requires 0 <= j < |live|
    requires (nxt[live[j]] == NIL || 0 <= nxt[live[j]] < |nxt|)
    ensures BackChained(live[..j] + live[j + 1..], UnlinkPrev(nxt, prv, live[j]))
  {
    var p := live[j];
    Neighbours(nxt, prv, liveHead, freeHead, live, free, j);
    var prv' := UnlinkPrev(nxt, prv, p);
    var live' := live[..j] + live[j + 1..];
    forall k | 0 <= k < |live'|
      ensures PrevAt(live', prv', k)
    {
      if k < j {
        assert PrevAt(live, prv, k);
        assert live'[k] == live[k];
        assert j + 1 < |live| ==> live[k] != live[j + 1];
        if 0 < k { assert live'[k - 1] == live[k - 1]; }
      } else if k == j {
        assert live'[k] == live[j + 1] == nxt[p];
        if 0 < k { assert live'[k - 1] == live[j - 1]; }
      } else {
        assert PrevAt(live, prv, k + 1);
        assert live'[k] == live[k + 1] && live[k + 1] != live[j + 1];
        assert live'[k - 1] == live[k];
      }
    }
  }

  /** Forward links of the free list after the cut record is pushed on it. */
  lemma {:induction false} UnlinkFreeNext(nxt: seq<int>, prv: seq<int>, liveHead: int, freeHead: int,
                                          live: seq<int>, free: seq<int>, j: int)
    requires LinksOk(nxt, prv, liveHead, freeHead, live, free)
    requires 0 <= j < |live|
    requires (prv[live[j]] == NIL || 0 <= prv[live[j]] < |nxt|)
    ensures Chained([live[j]] + free, UnlinkNext(nxt, prv, freeHead, live[j]))
  {
    var p := live[j];
    Neighbours(nxt, prv, liveHead, freeHead, live, free, j);
    assert p in live;
    if 0 < j { assert live[j - 1] in live; }
    PushFree(nxt, free, p, freeHead, prv[p]);
  }

  /** Pushing p on the free list after its live predecessor q (if any) has
      been made to jump over it. */
  lemma {:induction false} PushFree(nxt: seq<int>, free: seq<int>, p: int, freeHead: int, q: int)
    requires 0 <= p < |nxt| && p !in free && Chained(free, nxt) && freeHead == HeadOf(free)
    requires q == NIL || (0 <= q < |nxt| && q !in free)
    ensures Chained([p] + free, (if q != NIL then nxt[q := nxt[p]] else nxt)[p := freeHead])
  {
    var nxt1 := if q != NIL then nxt[q := nxt[p]] else nxt;
    if q != NIL { FreeUntouched(nxt, free, q, nxt[p]); }
    FreeUntouched(nxt1, free, p, freeHead);
    var nxt', free' := nxt1[p := freeHead], [p] + free;
    forall k | 0 <= k < |free'|
      ensures NextAt(free', nxt', k)
    {
      if k == 0 {
        if 0 < |free| { assert free'[1] == free[0]; }
      } else {
        assert NextAt(free, nxt', k - 1);
        assert free'[k] == free[k - 1];
        if k < |free| { assert free'[k + 1] == free[k]; }
      }
    }
  }

  /** Recycling the record at position j of the live list removes exactly
      that position from the live list, moves the live head to its successor
      when it was the head, and pushes the record on the front of the free
      list. */
  lemma {:induction false} Unlink(nxt: seq<int>, prv: seq<int>, liveHead: int, freeHead: int,
                                  live: seq<int>, free: seq<int>, j: int,
                                  nxt': seq<int>, prv': seq<int>, liveHead': int)
    requires LinksOk(nxt, prv, liveHead, freeHead, live, free)
    requires 0 <= j < |live| && 0 <= live[j] < |nxt|
    requires prv[live[j]] == NIL || 0 <= prv[live[j]] < |nxt|
    requires nxt[live[j]] == NIL || 0 <= nxt[live[j]] < |nxt|
    requires nxt' == UnlinkNext(nxt, prv, freeHead, live[j])
    requires prv' == UnlinkPrev(nxt, prv, live[j])
    requires liveHead' == if liveHead == live[j] then nxt[live[j]] else liveHead
    ensures LinksOk(nxt', prv', liveHead', live[j], live[..j] + live[j + 1..], [live[j]] + free)
    ensures forall i :: i in live[..j] + live[j + 1..] ==> i in live
    ensures |nxt'| == |nxt| && nxt'[live[j]] == freeHead && prv'[live[j]] == prv[live[j]]
    ensures prv[live[j]] != NIL ==> nxt'[prv[live[j]]] == nxt[live[j]]
    ensures nxt[live[j]] != NIL ==> prv'[nxt[live[j]]] == prv[live[j]]
  {
    var p := live[j];
    Neighbours(nxt, prv, liveHead, freeHead, live, free, j);
    UnlinkPartition(live, free, |nxt|, j);
    UnlinkLiveNext(nxt, prv, liveHead, freeHead, live, free, j);
    UnlinkLivePrev(nxt, prv, liveHead, freeHead, live, free, j);
    UnlinkFreeNext(nxt, prv, liveHead, freeHead, live, free, j);
    var live' := live[..j] + live[j + 1..];
    if j == 0 {
      if 1 < |live| { assert live'[0] == live[1]; }
    } else {
      assert live'[0] == live[0];
    }
    assert forall k :: 0 <= k < |live'| ==> live'[k] == (if k < j then live[k] else live[k + 1]);
  }
}
