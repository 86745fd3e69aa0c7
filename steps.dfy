/** The elementary structural steps of insertion and erasure, each proved
    to carry a snapshot that satisfies the representation invariant to one
    that satisfies it again, with the stated effect on the stored keys. */
module TrieSteps {
  import opened TrieTypes
  import opened TrieInvariant

  // ---------------------------------------------------------------------
  // Claiming a free slot below a branching node

  /** What claiming slot `ns[tn].base + w` for a new leaf with tail record
      `t` demands. */
  ghost predicate ClaimPre(s: Snap, tn: int, w: Word, t: int, rest: seq<Word>)
  {
    Inv(s) && tn in s.path && 0 <= tn < |s.ns| && s.ns[tn].base >= BASE &&
    s.ns[tn].base + w < |s.ns| && s.ns[s.ns[tn].base + w].prev == 0 &&
    0 <= t < |s.ts| && s.ts[t].usedBy == 0 &&
    s.path[tn] + [w] + rest !in s.contents
  }

  /** The snapshot after the claim. */
  ghost function Claimed(s: Snap, tn: int, w: Word, t: int, rest: seq<Word>, d: int): Snap
    requires ClaimPre(s, tn, w, t, rest)
  {
    var next := s.ns[tn].base + w;
    var key := s.path[tn] + [w] + rest;
    Snap(s.ns[next := Node(-t, tn)], s.ts[t := TailRec(rest, d, next)],
         s.path[next := s.path[tn] + [w]], s.leafOf[key := next],
         s.contents[key := d])
  }

  lemma ClaimedSlotFree(s: Snap, tn: int, w: Word, t: int, rest: seq<Word>)
    requires ClaimPre(s, tn, w, t, rest)
    ensures s.ns[tn].base + w !in s.path && s.ts[t] == FREE_TAIL
  {
    var next := s.ns[tn].base + w;
    assert next != ROOT;
    assert next in s.path ==> Linked(s, next);
    assert TailOk(s, t);
  }

  lemma ClaimSkeleton(s: Snap, tn: int, w: Word, t: int, rest: seq<Word>, d: int)
    requires ClaimPre(s, tn, w, t, rest)
    ensures Skeleton(Claimed(s, tn, w, t, rest, d))
  {
    var next := s.ns[tn].base + w;
    var s' := Claimed(s, tn, w, t, rest, d);
    ClaimedSlotFree(s, tn, w, t, rest);
    forall n | n in s'.path && n != ROOT
      ensures Linked(s', n)
    {
      if n != next {
        assert Linked(s, n);
      } else {
        assert s'.path[n][..|s'.path[n]| - 1] == s.path[tn];
      }
    }
  }

  lemma ClaimFree(s: Snap, tn: int, w: Word, t: int, rest: seq<Word>, d: int)
    requires ClaimPre(s, tn, w, t, rest)
    ensures FreeZero(Claimed(s, tn, w, t, rest, d))
    ensures KindsOk(Claimed(s, tn, w, t, rest, d))
  {
    ClaimedSlotFree(s, tn, w, t, rest);
  }

  lemma ClaimTails(s: Snap, tn: int, w: Word, t: int, rest: seq<Word>, d: int)
    requires ClaimPre(s, tn, w, t, rest)
    ensures LeavesOk(Claimed(s, tn, w, t, rest, d))
    ensures TailsOk(Claimed(s, tn, w, t, rest, d))
  {
    var next := s.ns[tn].base + w;
    var s' := Claimed(s, tn, w, t, rest, d);
    ClaimedSlotFree(s, tn, w, t, rest);
    forall n | n in s'.path && 0 <= n < |s'.ns| && s'.ns[n].base <= 0
      ensures -s'.ns[n].base < |s'.ts| && s'.ts[-s'.ns[n].base].usedBy == n
    {
      if n != next {
        assert s.ts[-s.ns[n].base].usedBy == n;
      }
    }
    forall u | 0 <= u < |s'.ts|
      ensures TailOk(s', u)
    {
      if u != t {
        assert TailOk(s, u);
      }
    }
  }

  lemma ClaimKeys(s: Snap, tn: int, w: Word, t: int, rest: seq<Word>, d: int)
    requires ClaimPre(s, tn, w, t, rest)
    ensures KeysOk(Claimed(s, tn, w, t, rest, d))
  {
    var next := s.ns[tn].base + w;
    var key := s.path[tn] + [w] + rest;
    var s' := Claimed(s, tn, w, t, rest, d);
    ClaimedSlotFree(s, tn, w, t, rest);
    forall k | k in s'.leafOf
      ensures LeafFor(s', s'.leafOf[k], k) && s'.contents[k] == Payload(s', s'.leafOf[k])
    {
      if k != key {
        var L := s.leafOf[k];
        assert LeafFor(s, L, k);
        assert s.ts[-s.ns[L].base].usedBy == L;
        assert FullKey(s', L) == FullKey(s, L);
      } else {
        assert FullKey(s', next) == key;
      }
    }
    forall n | n in s'.path && IsLeaf(s', n)
      ensures FullKey(s', n) in s'.leafOf && s'.leafOf[FullKey(s', n)] == n
    {
      if n != next {
        assert IsLeaf(s, n);
        assert s.ts[-s.ns[n].base].usedBy == n;
        assert FullKey(s', n) == FullKey(s, n);
        assert FullKey(s, n) in s.leafOf;
      }
    }
  }

  /** Claiming a free slot keeps the invariant and stores exactly one new
      key. */
  lemma ClaimKeepsInv(s: Snap, tn: int, w: Word, t: int, rest: seq<Word>, d: int)
    requires ClaimPre(s, tn, w, t, rest)
    ensures Inv(Claimed(s, tn, w, t, rest, d))
    ensures Claimed(s, tn, w, t, rest, d).contents == s.contents[s.path[tn] + [w] + rest := d]
  {
    ClaimSkeleton(s, tn, w, t, rest, d);
    ClaimFree(s, tn, w, t, rest, d);
    ClaimTails(s, tn, w, t, rest, d);
    ClaimKeys(s, tn, w, t, rest, d);
  }

  // ---------------------------------------------------------------------
  // Pushing a leaf one symbol down (tail splitting)

  /** What turning leaf `cur` into a branching node with base `b`, whose
      only child via the first symbol `w` of the tail is a new leaf at the
      free slot `b + w` taking over the shortened tail, demands. */
  ghost predicate PushPre(s: Snap, cur: int, b: int)
  {
    Inv(s) && cur in s.path && 0 <= cur < |s.ns| && s.ns[cur].base <= 0 &&
    -s.ns[cur].base < |s.ts| && |s.ts[-s.ns[cur].base].words| > 0 &&
    b >= BASE && b + s.ts[-s.ns[cur].base].words[0] < |s.ns| &&
    s.ns[b + s.ts[-s.ns[cur].base].words[0]].prev == 0
  }

  /** The snapshot after the push. */
  ghost function Pushed(s: Snap, cur: int, b: int): Snap
    requires PushPre(s, cur, b)
  {
    var t := -s.ns[cur].base;
    var tw := s.ts[t].words;
    var nx := b + tw[0];
    Snap(s.ns[cur := Node(b, s.ns[cur].prev)][nx := Node(-t, cur)],
         s.ts[t := TailRec(tw[1..], s.ts[t].data, nx)],
         s.path[nx := s.path[cur] + [tw[0]]],
         s.leafOf[FullKey(s, cur) := nx],
         s.contents)
  }

  lemma PushedSlotFree(s: Snap, cur: int, b: int)
    requires PushPre(s, cur, b)
    ensures var nx := b + s.ts[-s.ns[cur].base].words[0];
            nx !in s.path && nx != cur && cur != ROOT
    ensures forall n :: n in s.path && n != ROOT ==> s.ns[n].prev != cur
  {
    var nx := b + s.ts[-s.ns[cur].base].words[0];
    assert nx != ROOT;
    assert nx in s.path ==> Linked(s, nx);
    forall n | n in s.path && n != ROOT
      ensures s.ns[n].prev != cur
    {
      assert Linked(s, n);
    }
  }

  lemma PushSkeleton(s: Snap, cur: int, b: int)
    requires PushPre(s, cur, b)
    ensures Skeleton(Pushed(s, cur, b))
  {
    var t := -s.ns[cur].base;
    var nx := b + s.ts[t].words[0];
    var s' := Pushed(s, cur, b);
    PushedSlotFree(s, cur, b);
    forall n | n in s'.path && n != ROOT
      ensures Linked(s', n)
    {
      if n != nx {
        assert Linked(s, n);
      } else {
        assert s'.path[n][..|s'.path[n]| - 1] == s.path[cur];
      }
    }
  }

  lemma PushFree(s: Snap, cur: int, b: int)
    requires PushPre(s, cur, b)
    ensures FreeZero(Pushed(s, cur, b))
    ensures KindsOk(Pushed(s, cur, b))
  {
    PushedSlotFree(s, cur, b);
  }

  lemma PushTails(s: Snap, cur: int, b: int)
    requires PushPre(s, cur, b)
    ensures LeavesOk(Pushed(s, cur, b))
    ensures TailsOk(Pushed(s, cur, b))
  {
    var t := -s.ns[cur].base;
    var nx := b + s.ts[t].words[0];
    var s' := Pushed(s, cur, b);
    PushedSlotFree(s, cur, b);
    forall n | n in s'.path && 0 <= n < |s'.ns| && s'.ns[n].base <= 0
      ensures -s'.ns[n].base < |s'.ts| && s'.ts[-s'.ns[n].base].usedBy == n
    {
      if n != nx {
        assert s.ts[-s.ns[n].base].usedBy == n;
      }
    }
    forall u | 0 <= u < |s'.ts|
      ensures TailOk(s', u)
    {
      assert TailOk(s, u);
    }
  }

  lemma PushKeys(s: Snap, cur: int, b: int)
    requires PushPre(s, cur, b)
    ensures KeysOk(Pushed(s, cur, b))
    ensures Pushed(s, cur, b).contents == s.contents
  {
    var t := -s.ns[cur].base;
    var tw := s.ts[t].words;
    var nx := b + tw[0];
    var key := FullKey(s, cur);
    var s' := Pushed(s, cur, b);
    PushedSlotFree(s, cur, b);
    assert FullKey(s', nx) == key by {
      assert s.path[cur] + [tw[0]] + tw[1..] == s.path[cur] + tw;
    }
    assert LeafFor(s, s.leafOf[key], key);
    forall k | k in s'.leafOf
      ensures LeafFor(s', s'.leafOf[k], k) && s'.contents[k] == Payload(s', s'.leafOf[k])
    {
      if k != key {
        var L := s.leafOf[k];
        assert LeafFor(s, L, k);
        assert L != cur;
        assert s.ts[-s.ns[L].base].usedBy == L;
        assert FullKey(s', L) == FullKey(s, L);
      }
    }
    forall n | n in s'.path && IsLeaf(s', n)
      ensures FullKey(s', n) in s'.leafOf && s'.leafOf[FullKey(s', n)] == n
    {
      if n != nx {
        assert IsLeaf(s, n);
        assert n != cur;
        assert s.ts[-s.ns[n].base].usedBy == n;
        assert FullKey(s', n) == FullKey(s, n);
        assert FullKey(s, n) in s.leafOf;
      }
    }
  }

  /** Pushing a leaf down keeps the invariant and the stored keys. */
  lemma PushDownKeepsInv(s: Snap, cur: int, b: int)
    requires PushPre(s, cur, b)
    ensures Inv(Pushed(s, cur, b))
    ensures Pushed(s, cur, b).contents == s.contents
  {
    PushSkeleton(s, cur, b);
    PushFree(s, cur, b);
    PushTails(s, cur, b);
    PushKeys(s, cur, b);
  }

  // ---------------------------------------------------------------------
  // Freeing a leaf, freeing a childless branching node

  ghost predicate RemoveLeafPre(s: Snap, n: int)
  {
    Inv(s) && n in s.path && 0 <= n < |s.ns| && s.ns[n].base <= 0
  }

  /** The snapshot after leaf `n` and its tail record are zeroed. */
  ghost function LeafRemoved(s: Snap, n: int): Snap
    requires RemoveLeafPre(s, n)
  {
    assert s.ts[-s.ns[n].base].usedBy == n;
    var k := FullKey(s, n);
    Snap(s.ns[n := FREE_NODE], s.ts[-s.ns[n].base := FREE_TAIL],
         s.path - {n}, s.leafOf - {k}, s.contents - {k})
  }

  lemma LeafNotParent(s: Snap, n: int)
    requires Inv(s) && n in s.path && 0 <= n < |s.ns| && s.ns[n].base <= 0
    ensures n != ROOT
    ensures forall m :: m in s.path && m != ROOT ==> s.ns[m].prev != n
  {
    forall m | m in s.path && m != ROOT
      ensures s.ns[m].prev != n
    {
      assert Linked(s, m);
    }
  }

  lemma RemoveLeafSkeleton(s: Snap, n: int)
    requires RemoveLeafPre(s, n)
    ensures Skeleton(LeafRemoved(s, n)) && FreeZero(LeafRemoved(s, n)) && KindsOk(LeafRemoved(s, n))
  {
    var s' := LeafRemoved(s, n);
    LeafNotParent(s, n);
    forall m | m in s'.path && m != ROOT
      ensures Linked(s', m)
    {
      assert Linked(s, m);
    }
  }

  lemma RemoveLeafTails(s: Snap, n: int)
    requires RemoveLeafPre(s, n)
    ensures LeavesOk(LeafRemoved(s, n)) && TailsOk(LeafRemoved(s, n))
  {
    var s' := LeafRemoved(s, n);
    var t := -s.ns[n].base;
    forall m | m in s'.path && 0 <= m < |s'.ns| && s'.ns[m].base <= 0
      ensures -s'.ns[m].base < |s'.ts| && s'.ts[-s'.ns[m].base].usedBy == m
    {
      assert s.ts[-s.ns[m].base].usedBy == m;
    }
    forall u | 0 <= u < |s'.ts|
      ensures TailOk(s', u)
    {
      assert TailOk(s, u);
    }
  }

  lemma RemoveLeafKeys(s: Snap, n: int)
    requires RemoveLeafPre(s, n)
    ensures KeysOk(LeafRemoved(s, n))
  {
    var s' := LeafRemoved(s, n);
    var t := -s.ns[n].base;
    var key := FullKey(s, n);
    forall k | k in s'.leafOf
      ensures LeafFor(s', s'.leafOf[k], k) && s'.contents[k] == Payload(s', s'.leafOf[k])
    {
      var L := s.leafOf[k];
      assert LeafFor(s, L, k);
      assert L != n;
      assert s.ts[-s.ns[L].base].usedBy == L;
      assert FullKey(s', L) == FullKey(s, L);
    }
    forall m | m in s'.path && IsLeaf(s', m)
      ensures FullKey(s', m) in s'.leafOf && s'.leafOf[FullKey(s', m)] == m
    {
      assert IsLeaf(s, m);
      assert s.ts[-s.ns[m].base].usedBy == m;
      assert FullKey(s', m) == FullKey(s, m);
      assert FullKey(s, m) in s.leafOf;
    }
  }

  /** Freeing a leaf keeps the invariant and drops exactly its key. */
  lemma RemoveLeafKeepsInv(s: Snap, n: int)
    requires RemoveLeafPre(s, n)
    ensures Inv(LeafRemoved(s, n))
    ensures LeafRemoved(s, n).contents == s.contents - {FullKey(s, n)}
  {
    RemoveLeafSkeleton(s, n);
    RemoveLeafTails(s, n);
    RemoveLeafKeys(s, n);
  }

  ghost predicate RemoveChildlessPre(s: Snap, n: int)
  {
    Inv(s) && n in s.path && n != ROOT && 0 <= n < |s.ns| && s.ns[n].base >= BASE &&
    forall m :: m in s.path && m != ROOT ==> s.ns[m].prev != n
  }

  /** The snapshot after the childless branching node `n` is zeroed. */
  ghost function ChildlessRemoved(s: Snap, n: int): Snap
    requires RemoveChildlessPre(s, n)
  {
    s.(ns := s.ns[n := FREE_NODE], path := s.path - {n})
  }

  lemma RemoveChildlessSkeleton(s: Snap, n: int)
    requires RemoveChildlessPre(s, n)
    ensures Skeleton(ChildlessRemoved(s, n)) && FreeZero(ChildlessRemoved(s, n)) && KindsOk(ChildlessRemoved(s, n))
  {
    var s' := ChildlessRemoved(s, n);
    forall m | m in s'.path && m != ROOT
      ensures Linked(s', m)
    {
      assert Linked(s, m);
    }
  }

  lemma RemoveChildlessRest(s: Snap, n: int)
    requires RemoveChildlessPre(s, n)
    ensures LeavesOk(ChildlessRemoved(s, n)) && TailsOk(ChildlessRemoved(s, n)) && KeysOk(ChildlessRemoved(s, n))
  {
    var s' := ChildlessRemoved(s, n);
    forall u | 0 <= u < |s'.ts|
      ensures TailOk(s', u)
    {
      assert TailOk(s, u);
    }
    forall k | k in s'.leafOf
      ensures LeafFor(s', s'.leafOf[k], k) && s'.contents[k] == Payload(s', s'.leafOf[k])
    {
      var L := s.leafOf[k];
      assert LeafFor(s, L, k);
      assert FullKey(s', L) == FullKey(s, L);
    }
    forall m | m in s'.path && IsLeaf(s', m)
      ensures FullKey(s', m) in s'.leafOf && s'.leafOf[FullKey(s', m)] == m
    {
      assert IsLeaf(s, m);
      assert FullKey(s', m) == FullKey(s, m);
      assert FullKey(s, m) in s.leafOf;
    }
  }

  /** Freeing a childless branching node keeps the invariant and the keys. */
  lemma RemoveChildlessKeepsInv(s: Snap, n: int)
    requires RemoveChildlessPre(s, n)
    ensures Inv(ChildlessRemoved(s, n))
  {
    RemoveChildlessSkeleton(s, n);
    RemoveChildlessRest(s, n);
  }

  // ---------------------------------------------------------------------
  // Overwriting a payload, growing the arrays

  ghost predicate SetDataPre(s: Snap, n: int)
  {
    Inv(s) && n in s.path && 0 <= n < |s.ns| && s.ns[n].base <= 0
  }

  /** The snapshot after the payload in the tail of leaf `n` becomes `d`. */
  ghost function DataSet(s: Snap, n: int, d: int): Snap
    requires SetDataPre(s, n)
  {
    var t := -s.ns[n].base;
    s.(ts := s.ts[t := s.ts[t].(data := d)], contents := s.contents[FullKey(s, n) := d])
  }

  lemma SetDataSkeleton(s: Snap, n: int, d: int)
    requires SetDataPre(s, n)
    ensures var s' := DataSet(s, n, d);
            Skeleton(s') && FreeZero(s') && KindsOk(s')
  {
    var s' := DataSet(s, n, d);
    assert s'.ns == s.ns && s'.path == s.path;
    forall m | m in s'.path && m != ROOT
      ensures Linked(s', m)
    {
      assert Linked(s, m);
    }
  }

  lemma SetDataTails(s: Snap, n: int, d: int)
    requires SetDataPre(s, n)
    ensures var s' := DataSet(s, n, d);
            LeavesOk(s') && TailsOk(s')
  {
    var s' := DataSet(s, n, d);
    assert s'.ns == s.ns && s'.path == s.path && |s'.ts| == |s.ts|;
    forall u | 0 <= u < |s'.ts|
      ensures TailOk(s', u)
    {
      assert TailOk(s, u);
    }
  }

  lemma SetDataKeys(s: Snap, n: int, d: int)
    requires SetDataPre(s, n)
    ensures KeysOk(DataSet(s, n, d))
  {
    var t := -s.ns[n].base;
    assert s.ts[t].usedBy == n;
    var key := FullKey(s, n);
    assert s.leafOf[key] == n;
    var s' := DataSet(s, n, d);
    forall k | k in s'.leafOf
      ensures LeafFor(s', s'.leafOf[k], k) && s'.contents[k] == Payload(s', s'.leafOf[k])
    {
      var L := s.leafOf[k];
      assert LeafFor(s, L, k);
      assert s.ts[-s.ns[L].base].usedBy == L;
      assert FullKey(s', L) == FullKey(s, L);
    }
    forall m | m in s'.path && IsLeaf(s', m)
      ensures FullKey(s', m) in s'.leafOf && s'.leafOf[FullKey(s', m)] == m
    {
      assert IsLeaf(s, m);
      assert FullKey(s', m) == FullKey(s, m);
      assert FullKey(s, m) in s.leafOf;
    }
  }

  /** Overwriting the payload in the tail of leaf `n` keeps the invariant
      and changes only the payload of its key. */
  lemma SetDataKeepsInv(s: Snap, n: int, d: int)
    requires SetDataPre(s, n)
    ensures Inv(DataSet(s, n, d))
    ensures DataSet(s, n, d).contents == s.contents[FullKey(s, n) := d]
  {
    SetDataSkeleton(s, n, d);
    SetDataTails(s, n, d);
    SetDataKeys(s, n, d);
  }

  /** `m` zeroed node slots. */
  function FreeNodes(m: nat): (r: seq<Node>)
    ensures |r| == m && forall i :: 0 <= i < m ==> r[i] == FREE_NODE
  {
    seq(m, _ => FREE_NODE)
  }

  /** `m` zeroed tail slots. */
  function FreeTails(m: nat): (r: seq<TailRec>)
    ensures |r| == m && forall i :: 0 <= i < m ==> r[i] == FREE_TAIL
  {
    seq(m, _ => FREE_TAIL)
  }

  lemma GrowNodesSkeleton(s: Snap, m: nat)
    requires Inv(s)
    ensures var s' := s.(ns := s.ns + FreeNodes(m));
            Skeleton(s') && FreeZero(s') && KindsOk(s')
  {
    var s' := s.(ns := s.ns + FreeNodes(m));
    forall n | n in s'.path && n != ROOT
      ensures Linked(s', n)
    {
      assert Linked(s, n);
    }
  }

  lemma GrowNodesRest(s: Snap, m: nat)
    requires Inv(s)
    ensures var s' := s.(ns := s.ns + FreeNodes(m));
            LeavesOk(s') && TailsOk(s') && KeysOk(s')
  {
    var s' := s.(ns := s.ns + FreeNodes(m));
    forall u | 0 <= u < |s'.ts|
      ensures TailOk(s', u)
    {
      assert TailOk(s, u);
    }
    forall k | k in s'.leafOf
      ensures LeafFor(s', s'.leafOf[k], k) && s'.contents[k] == Payload(s', s'.leafOf[k])
    {
      var L := s.leafOf[k];
      assert LeafFor(s, L, k);
      assert FullKey(s', L) == FullKey(s, L);
    }
    forall n | n in s'.path && IsLeaf(s', n)
      ensures FullKey(s', n) in s'.leafOf && s'.leafOf[FullKey(s', n)] == n
    {
      assert IsLeaf(s, n);
      assert FullKey(s', n) == FullKey(s, n);
      assert FullKey(s, n) in s.leafOf;
    }
  }

  /** Appending zeroed node slots keeps the invariant. */
  lemma GrowNodesKeepsInv(s: Snap, m: nat)
    requires Inv(s)
    ensures Inv(s.(ns := s.ns + FreeNodes(m)))
  {
    GrowNodesSkeleton(s, m);
    GrowNodesRest(s, m);
  }

  lemma GrowTailsSkeleton(s: Snap, m: nat)
    requires Inv(s)
    ensures var s' := s.(ts := s.ts + FreeTails(m));
            Skeleton(s') && FreeZero(s') && KindsOk(s') && LeavesOk(s') && TailsOk(s')
  {
    var s' := s.(ts := s.ts + FreeTails(m));
    forall n | n in s'.path && n != ROOT
      ensures Linked(s', n)
    {
      assert Linked(s, n);
    }
    forall u | 0 <= u < |s'.ts|
      ensures TailOk(s', u)
    {
      if u < |s.ts| {
        assert TailOk(s, u);
      }
    }
  }

  lemma GrowTailsKeys(s: Snap, m: nat)
    requires Inv(s)
    ensures KeysOk(s.(ts := s.ts + FreeTails(m)))
  {
    var s' := s.(ts := s.ts + FreeTails(m));
    forall k | k in s'.leafOf
      ensures LeafFor(s', s'.leafOf[k], k) && s'.contents[k] == Payload(s', s'.leafOf[k])
    {
      var L := s.leafOf[k];
      assert LeafFor(s, L, k);
      assert FullKey(s', L) == FullKey(s, L);
    }
    forall n | n in s'.path && IsLeaf(s', n)
      ensures FullKey(s', n) in s'.leafOf && s'.leafOf[FullKey(s', n)] == n
    {
      assert IsLeaf(s, n);
      assert FullKey(s', n) == FullKey(s, n);
      assert FullKey(s, n) in s.leafOf;
    }
  }

  /** Appending zeroed tail slots keeps the invariant. */
  lemma GrowTailsKeepsInv(s: Snap, m: nat)
    requires Inv(s)
    ensures Inv(s.(ts := s.ts + FreeTails(m)))
  {
    GrowTailsSkeleton(s, m);
    GrowTailsKeys(s, m);
  }
}
