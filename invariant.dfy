/** The representation invariant of the double-array trie and the
    structural facts that follow from it.

    A `Snap` is a snapshot of the trie: the node and tail arrays as
    sequences, together with the ghost bookkeeping that explains them:
    `path[n]` is the sequence of symbols consumed on the path from the
    root to the live node `n`, `leafOf[k]` is the leaf that stores key `k`,
    and `contents` maps every stored key to its payload. */
module TrieInvariant {
  import opened TrieTypes

  datatype Snap = Snap(ns: seq<Node>, ts: seq<TailRec>,
                       path: map<int, seq<Word>>,
                       leafOf: map<seq<Word>, int>,
                       contents: map<seq<Word>, int>)

  /** Slot `ns[p].base + w` is a genuine child of `p`: the arithmetic slot
      exists and its `prev` names `p`. */
  predicate IsChild(ns: seq<Node>, p: int, w: Word)
  {
    0 <= p < |ns| && ns[p].base >= BASE && ns[p].base + w < |ns| &&
    ns[ns[p].base + w].prev == p
  }

  function Last(s: seq<Word>): Word
    requires |s| > 0
  {
    s[|s| - 1]
  }

  /** The root is live, branching, has no parent and the empty path. */
  ghost predicate RootOk(s: Snap)
  {
    ROOT < |s.ns| && ROOT in s.path && s.path[ROOT] == [] &&
    s.ns[ROOT].base >= BASE && s.ns[ROOT].prev == 0
  }

  /** Live nodes are real slots; slot 0 is never live. */
  ghost predicate InRange(s: Snap)
  {
    forall n :: n in s.path ==> 0 < n < |s.ns|
  }

  /** Node `n` hangs below its `prev`: the parent is live and branching,
      `n` sits at the parent's base plus the last symbol of its path, and
      its path extends the parent's path by that symbol. */
  ghost predicate Linked(s: Snap, n: int)
  {
    n in s.path && 0 <= n < |s.ns| &&
    var p := s.ns[n].prev;
    p in s.path && 0 <= p < |s.ns| && s.ns[p].base >= BASE &&
    |s.path[n]| > 0 && s.path[p] == s.path[n][..|s.path[n]| - 1] &&
    n == s.ns[p].base + Last(s.path[n])
  }

  ghost predicate ParentsOk(s: Snap)
  {
    forall n {:trigger Linked(s, n)} :: n in s.path && n != ROOT ==> Linked(s, n)
  }

  /** The tree shape of the live nodes. */
  ghost predicate Skeleton(s: Snap)
  {
    RootOk(s) && InRange(s) && ParentsOk(s)
  }

  /** Every slot that is not live is zeroed. */
  ghost predicate FreeZero(s: Snap)
  {
    forall x :: 0 <= x < |s.ns| && x !in s.path ==> s.ns[x] == FREE_NODE
  }

  /** A live node is either branching or a leaf. */
  ghost predicate KindsOk(s: Snap)
  {
    forall n :: n in s.path && 0 <= n < |s.ns| ==> s.ns[n].base >= BASE || s.ns[n].base <= 0
  }

  /** `n` is a leaf whose tail index is in range. */
  ghost predicate IsLeaf(s: Snap, n: int)
  {
    0 <= n < |s.ns| && s.ns[n].base <= 0 && -s.ns[n].base < |s.ts|
  }

  /** Every live leaf points to a tail record that it owns. */
  ghost predicate LeavesOk(s: Snap)
  {
    forall n :: n in s.path && 0 <= n < |s.ns| && s.ns[n].base <= 0 ==>
      -s.ns[n].base < |s.ts| && s.ts[-s.ns[n].base].usedBy == n
  }

  /** A tail record is either zeroed and free, or owned by a live leaf that
      points back to it. */
  ghost predicate TailOk(s: Snap, t: int)
    requires 0 <= t < |s.ts|
  {
    if s.ts[t].usedBy == 0 then s.ts[t] == FREE_TAIL
    else s.ts[t].usedBy in s.path && 0 <= s.ts[t].usedBy < |s.ns| &&
         s.ns[s.ts[t].usedBy].base == -t
  }

  ghost predicate TailsOk(s: Snap)
  {
    forall t :: 0 <= t < |s.ts| ==> TailOk(s, t)
  }

  /** The key stored at leaf `n`: its path path followed by its tail. */
  ghost function FullKey(s: Snap, n: int): seq<Word>
    requires n in s.path && IsLeaf(s, n)
  {
    s.path[n] + s.ts[-s.ns[n].base].words
  }

  /** The payload stored at leaf `n`. */
  ghost function Payload(s: Snap, n: int): int
    requires IsLeaf(s, n)
  {
    s.ts[-s.ns[n].base].data
  }

  ghost predicate LeafFor(s: Snap, n: int, k: seq<Word>)
  {
    n in s.path && IsLeaf(s, n) && FullKey(s, n) == k
  }

  /** `contents` is exactly the set of keys read off the leaves, with
      their payloads, and `leafOf` says which leaf holds which key. */
  ghost predicate KeysOk(s: Snap)
  {
    s.contents.Keys == s.leafOf.Keys &&
    (forall k :: k in s.leafOf ==>
       LeafFor(s, s.leafOf[k], k) && s.contents[k] == Payload(s, s.leafOf[k])) &&
    (forall n :: n in s.path && IsLeaf(s, n) ==>
       FullKey(s, n) in s.leafOf && s.leafOf[FullKey(s, n)] == n)
  }

  /** The representation invariant. */
  ghost predicate Inv(s: Snap)
  {
    Skeleton(s) && FreeZero(s) && KindsOk(s) && LeavesOk(s) && TailsOk(s) && KeysOk(s)
  }

  // ---------------------------------------------------------------------
  // Structural consequences

  /** Two live nodes with the same path are the same node. */
  lemma {:induction false} PathInjective(s: Snap, a: int, b: int)
    requires Skeleton(s)
    requires a in s.path && b in s.path && s.path[a] == s.path[b]
    ensures a == b
    decreases |s.path[a]|
  {
    assert a != ROOT ==> Linked(s, a);
    assert b != ROOT ==> Linked(s, b);
    if s.path[a] != [] {
      assert Linked(s, a) && Linked(s, b);
      var pa, pb := s.ns[a].prev, s.ns[b].prev;
      var la := s.path[a];
      assert s.path[pa] == la[..|la| - 1];
      assert s.path[pb] == la[..|la| - 1];
      PathInjective(s, pa, pb);
    }
  }

  /** Every prefix of a live node's path is the path of a live node,
      branching when the prefix is proper. */
  lemma {:induction false} Ancestor(s: Snap, n: int, d: nat) returns (a: int)
    requires Skeleton(s) && n in s.path && d <= |s.path[n]|
    ensures a in s.path && 0 <= a < |s.ns| && s.path[a] == s.path[n][..d]
    ensures d < |s.path[n]| ==> s.ns[a].base >= BASE
    decreases |s.path[n]|
  {
    if d == |s.path[n]| {
      a := n;
    } else {
      assert Linked(s, n);
      var p := s.ns[n].prev;
      var ln := s.path[n];
      assert s.path[p] == ln[..|ln| - 1];
      if d == |s.path[p]| {
        a := p;
      } else {
        a := Ancestor(s, p, d);
        assert s.path[p][..d] == ln[..d];
      }
    }
  }

  /** A genuine child of a live node is live and labelled by one more
      symbol. */
  lemma ChildPath(s: Snap, n: int, w: Word)
    requires Inv(s) && n in s.path && IsChild(s.ns, n, w)
    ensures s.ns[n].base + w in s.path
    ensures s.path[s.ns[n].base + w] == s.path[n] + [w]
  {
    var c := s.ns[n].base + w;
    assert Linked(s, c);
  }

  /** No stored key passes through a missing child. */
  lemma ChildAbsent(s: Snap, n: int, w: Word)
    requires Inv(s) && n in s.path && s.ns[n].base >= BASE && !IsChild(s.ns, n, w)
    ensures forall k :: k in s.contents ==> !(s.path[n] + [w] <= k)
  {
    forall k | k in s.contents
      ensures !(s.path[n] + [w] <= k)
    {
      if s.path[n] + [w] <= k {
        ChildAbsentAt(s, n, w, k);
      }
    }
  }

  lemma ChildAbsentAt(s: Snap, n: int, w: Word, k: seq<Word>)
    requires Skeleton(s) && KeysOk(s) && n in s.path && s.ns[n].base >= BASE
    requires k in s.contents && s.path[n] + [w] <= k
    ensures IsChild(s.ns, n, w)
  {
    var ln := s.path[n];
    var L := s.leafOf[k];
    assert LeafFor(s, L, k);
    var lL := s.path[L];
    assert lL <= k;
    if |lL| > |ln| {
      var a := Ancestor(s, L, |ln| + 1);
      assert s.path[a] == k[..|ln| + 1] == ln + [w];
      assert Linked(s, a);
      var pa := s.ns[a].prev;
      assert s.path[pa] == ln;
      assert Last(s.path[a]) == w;
      PathInjective(s, pa, n);
      assert a == s.ns[n].base + w;
    } else if |lL| == |ln| {
      assert lL == k[..|ln|] == ln;
      PathInjective(s, L, n);
      assert false;
    } else {
      var a := Ancestor(s, n, |lL|);
      assert s.path[a] == ln[..|lL|] == k[..|lL|] == lL;
      PathInjective(s, a, L);
      assert false;
    }
  }

  /** A leaf owns every stored key that extends its path: there is exactly
      one, its own. */
  lemma LeafOwnsPrefix(s: Snap, n: int)
    requires Inv(s) && n in s.path && s.ns[n].base <= 0
    ensures IsLeaf(s, n) && FullKey(s, n) in s.contents
    ensures s.contents[FullKey(s, n)] == Payload(s, n)
    ensures forall k :: k in s.contents && s.path[n] <= k ==> k == FullKey(s, n)
  {
    var ln := s.path[n];
    assert IsLeaf(s, n);
    forall k | k in s.contents && ln <= k
      ensures k == FullKey(s, n)
    {
      var L := s.leafOf[k];
      assert LeafFor(s, L, k);
      var lL := s.path[L];
      assert lL <= k;
      if |lL| < |ln| {
        var a := Ancestor(s, n, |lL|);
        assert s.path[a] == ln[..|lL|] == k[..|lL|] == lL;
        PathInjective(s, a, L);
        assert false;
      } else if |lL| == |ln| {
        assert lL == k[..|ln|] == ln;
        PathInjective(s, L, n);
      } else {
        var a := Ancestor(s, L, |ln|);
        assert s.path[a] == lL[..|ln|] == k[..|ln|] == ln;
        PathInjective(s, a, n);
        assert false;
      }
    }
  }

  /** A stored key that extends the path of a branching node is strictly
      longer and continues through a genuine child. */
  lemma KeyBelowBranch(s: Snap, n: int, k: seq<Word>)
    requires Inv(s) && n in s.path && s.ns[n].base >= BASE
    requires k in s.contents && s.path[n] <= k
    ensures |k| > |s.path[n]| && IsChild(s.ns, n, k[|s.path[n]|])
  {
    var ln := s.path[n];
    var L := s.leafOf[k];
    assert LeafFor(s, L, k);
    var lL := s.path[L];
    assert lL <= k;
    if |k| == |ln| {
      assert k == ln;
      if |lL| == |ln| {
        assert lL == ln;
        PathInjective(s, L, n);
        assert false;
      } else {
        var a := Ancestor(s, n, |lL|);
        assert s.path[a] == ln[..|lL|] == lL;
        PathInjective(s, a, L);
        assert false;
      }
    }
    if !IsChild(s.ns, n, k[|ln|]) {
      assert ln + [k[|ln|]] <= k;
      ChildAbsentAt(s, n, k[|ln|], k);
      assert false;
    }
  }

  /** No stored key is a proper prefix of another. */
  lemma PrefixFree(s: Snap)
    requires Inv(s)
    ensures forall k1, k2 :: k1 in s.contents && k2 in s.contents && k1 <= k2 ==> k1 == k2
  {
    forall k1, k2 | k1 in s.contents && k2 in s.contents && k1 <= k2
      ensures k1 == k2
    {
      var L := s.leafOf[k1];
      assert LeafFor(s, L, k1);
      LeafOwnsPrefix(s, L);
      assert s.path[L] <= k2;
    }
  }
}
